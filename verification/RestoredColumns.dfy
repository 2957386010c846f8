/** What a merge restore leaves in each column of a book that the library already had, column by column. */
module RestoredColumns {
  import opened Wrappers
  import opened Text
  import opened Library
  import opened MergeRules
  import opened Lww
  import opened Catalogs
  import opened Backups
  import opened RestoredBooks
  import opened RestoredFields
  import opened RestoreTheorem

  /** The columns that a restore writes: all but the work. */
  const COLUMNS: seq<Key> :=
    [Title, Subtitle, Description, PageCount, PubDate, Language, Format, DurationMinutes, CoverHash, Status, Rating]

  lemma ColumnsAreWritten(b: FullBook, k: Key)
    requires k in COLUMNS
    ensures Restorable(b, k) == Column(b, k)
  {
  }

  /** The `j`th provenance row is about the field of the `i`th book, which was restored into `local`. */
  predicate IsOffer(data: Backup, ids: IdMap, local: Id, k: Key, i: int, j: int)
  {
    && 0 <= i < |data.books| && 0 <= j < |data.provenance|
    && Resolve(ids, data.books[i].0) == local && data.provenance[j].0 == (data.books[i].0, k)
  }

  function OfferAt(data: Backup, k: Key, i: nat, j: nat): Write<Cell>
    requires i < |data.books| && j < |data.provenance|
  {
    Write(Effective(data.provenance[j].1), Restorable(data.books[i].1, k))
  }

  lemma {:induction false} RowOffersAre(rows: seq<((Id, Key), Provenance)>, id: Id, k: Key, b: FullBook, n: nat,
                                        w: Write<Cell>)
    requires n <= |rows|
    ensures w in RowOffers(rows, id, k, b, n) <==>
      exists j :: 0 <= j < n && rows[j].0 == (id, k) && w == Write(Effective(rows[j].1), Restorable(b, k))
  {
    hide Restorable, Effective;
    if n > 0 {
      RowOffersAre(rows, id, k, b, n - 1, w);
    }
  }

  /** One of the first `n` books offers the write. */
  ghost predicate HasOffer(data: Backup, ids: IdMap, local: Id, k: Key, n: nat, w: Write<Cell>)
  {
    exists i, j :: 0 <= i < n && IsOffer(data, ids, local, k, i, j) && w == OfferAt(data, k, i, j)
  }

  lemma OneMoreBook(data: Backup, ids: IdMap, local: Id, k: Key, n: nat, w: Write<Cell>)
    requires n < |data.books|
    ensures HasOffer(data, ids, local, k, n + 1, w) <==>
      HasOffer(data, ids, local, k, n, w) ||
      exists j :: IsOffer(data, ids, local, k, n, j) && w == OfferAt(data, k, n, j)
  {
    hide IsOffer, OfferAt;
  }

  lemma BookOffersAre(data: Backup, ids: IdMap, local: Id, k: Key, i: nat, w: Write<Cell>)
    requires i < |data.books|
    ensures (exists j :: IsOffer(data, ids, local, k, i, j) && w == OfferAt(data, k, i, j)) <==>
      Resolve(ids, data.books[i].0) == local &&
      w in RowOffers(data.provenance, data.books[i].0, k, data.books[i].1, |data.provenance|)
  {
    hide Restorable, Effective, Resolve, RowOffers;
    var rows, id, b := data.provenance, data.books[i].0, data.books[i].1;
    RowOffersAre(rows, id, k, b, |rows|, w);
    if Resolve(ids, id) == local && w in RowOffers(rows, id, k, b, |rows|) {
      var j :| 0 <= j < |rows| && rows[j].0 == (id, k) && w == Write(Effective(rows[j].1), Restorable(b, k));
      assert IsOffer(data, ids, local, k, i, j) && w == OfferAt(data, k, i, j);
    }
  }

  lemma {:induction false} OffersAre(data: Backup, ids: IdMap, local: Id, k: Key, n: nat, w: Write<Cell>)
    requires n <= |data.books|
    ensures w in Offers(data, ids, local, k, n) <==> HasOffer(data, ids, local, k, n, w)
  {
    hide Resolve, RowOffers, IsOffer, OfferAt;
    if n > 0 {
      OffersAre(data, ids, local, k, n - 1, w);
      OneMoreBook(data, ids, local, k, n - 1, w);
      BookOffersAre(data, ids, local, k, n - 1, w);
      hide HasOffer;
    }
  }

  /** The column and its clock are the offer's, and newer than what they were. */
  predicate IsTaken(pb: ProvenanceTable, after: FullBook, pa: ProvenanceTable, data: Backup, local: Id, k: Key, i: int,
                    j: int)
    requires 0 <= i < |data.books| && 0 <= j < |data.provenance|
  {
    && Column(after, k) == Column(data.books[i].1, k)
    && (local, k) in pa && Effective(pa[(local, k)]) == Effective(data.provenance[j].1)
    && ((local, k) in pb ==> Less(Effective(pb[(local, k)]), Effective(data.provenance[j].1)))
  }

  /** The column and its clock are what they were, or both are one offer's. */
  ghost predicate FromOffer(before: FullBook, pb: ProvenanceTable, after: FullBook, pa: ProvenanceTable, data: Backup,
                            ids: IdMap, local: Id, k: Key)
  {
    || (Column(after, k) == Column(before, k)
        && ((local, k) in pa <==> (local, k) in pb)
        && ((local, k) in pb ==> Effective(pa[(local, k)]) == Effective(pb[(local, k)])))
    || exists i, j :: IsOffer(data, ids, local, k, i, j) && IsTaken(pb, after, pa, data, local, k, i, j)
  }

  ghost predicate PassesOffers(pa: ProvenanceTable, data: Backup, ids: IdMap, local: Id, k: Key)
  {
    forall i, j :: IsOffer(data, ids, local, k, i, j) ==>
      (local, k) in pa && !Less(Effective(pa[(local, k)]), Effective(data.provenance[j].1))
  }

  /** Each column of a book of the library ends with the greatest effective clock among its own and those that the
      backup has for it, and with the value that goes with that clock. */
  lemma RestoredColumn(store: Store, src: Store, data: Backup, local: Id, k: Key)
    requires HasBooks(store) && ListsBooks(src, data) && local in store.books && k in COLUMNS
    ensures var last := RestoreBooks(store, data, MergeInto, |data.books|);
      && local in last.books
      && FromOffer(store.books[local], store.provenance, last.books[local], last.provenance, data, last.ids, local, k)
      && PassesOffers(last.provenance, data, last.ids, local, k)
  {
    RestoredFieldIsLatest(store, src, data, local, k);
    hide RestoreBooks, HasBooks, ListsBooks;
    var last := RestoreBooks(store, data, MergeInto, |data.books|);
    LatestIsFromOffer(store.books[local], store.provenance, last.books[local], last.provenance, data, last.ids, local,
                      k);
    LatestPassesOffers(store.books[local], store.provenance, last.books[local], last.provenance, data, last.ids, local,
                       k);
    hide FromOffer, PassesOffers, Latest, ColumnSlot, Offers;
  }

  lemma LatestIsFromOffer(before: FullBook, pb: ProvenanceTable, after: FullBook, pa: ProvenanceTable, data: Backup,
                          ids: IdMap, local: Id, k: Key)
    requires k in COLUMNS
    requires Latest(ColumnSlot(before, pb, local, k), Offers(data, ids, local, k, |data.books|),
                    ColumnSlot(after, pa, local, k))
    ensures FromOffer(before, pb, after, pa, data, ids, local, k)
  {
    var start, r := ColumnSlot(before, pb, local, k), ColumnSlot(after, pa, local, k);
    if r == start {
      ColumnsAreWritten(before, k);
      ColumnsAreWritten(after, k);
      hide Restorable, Column, Effective, Latest, Offers, IsOffer, IsTaken;
    } else {
      hide ColumnSlot, Offers, Latest, IsOffer, OfferAt, IsTaken, Column, Effective;
      var i, j := ChosenOffer(data, ids, local, k, start, r);
      WrittenIsTaken(before, pb, after, pa, data, local, k, i, j);
    }
  }

  lemma ChosenOffer(data: Backup, ids: IdMap, local: Id, k: Key, start: Slot<Cell>, r: Slot<Cell>)
    returns (i: int, j: int)
    requires Latest(start, Offers(data, ids, local, k, |data.books|), r) && r != start
    ensures 0 <= i < |data.books| && 0 <= j < |data.provenance| && IsOffer(data, ids, local, k, i, j)
    ensures var w := OfferAt(data, k, i, j); r == Slot(w.value, Some(w.hlc)) && Newer(w.hlc, start.clock)
  {
    hide Offers, OfferAt, Newer;
    var w :| w in Offers(data, ids, local, k, |data.books|) && r == Slot(w.value, Some(w.hlc))
      && Newer(w.hlc, start.clock);
    OffersAre(data, ids, local, k, |data.books|, w);
    i, j :| 0 <= i < |data.books| && IsOffer(data, ids, local, k, i, j) && w == OfferAt(data, k, i, j);
  }

  lemma WrittenIsTaken(before: FullBook, pb: ProvenanceTable, after: FullBook, pa: ProvenanceTable, data: Backup,
                       local: Id, k: Key, i: int, j: int)
    requires k in COLUMNS && 0 <= i < |data.books| && 0 <= j < |data.provenance|
    requires var w := OfferAt(data, k, i, j);
      && ColumnSlot(after, pa, local, k) == Slot(w.value, Some(w.hlc))
      && Newer(w.hlc, ColumnSlot(before, pb, local, k).clock)
    ensures IsTaken(pb, after, pa, data, local, k, i, j)
  {
    ColumnsAreWritten(after, k);
    ColumnsAreWritten(data.books[i].1, k);
    hide Restorable, Column, Effective, Less;
  }

  lemma LatestPassesOffers(before: FullBook, pb: ProvenanceTable, after: FullBook, pa: ProvenanceTable, data: Backup,
                           ids: IdMap, local: Id, k: Key)
    requires Latest(ColumnSlot(before, pb, local, k), Offers(data, ids, local, k, |data.books|),
                    ColumnSlot(after, pa, local, k))
    ensures PassesOffers(pa, data, ids, local, k)
  {
    hide Restorable, Effective, Offers;
    forall i, j | IsOffer(data, ids, local, k, i, j)
      ensures (local, k) in pa && !Less(Effective(pa[(local, k)]), Effective(data.provenance[j].1))
    {
      OffersAre(data, ids, local, k, |data.books|, OfferAt(data, k, i, j));
      assert OfferAt(data, k, i, j) in Offers(data, ids, local, k, |data.books|);
    }
  }

  /** Nothing, or an integer of 64 bits. */
  predicate IsNullOrI64(c: Cell)
  {
    c.Nil? || (c.Int? && -0x8000_0000_0000_0000 <= c.number <= 0x7FFF_FFFF_FFFF_FFFF)
  }

  /** A library can be backed up exactly when all three integer columns of every book hold such a value. */
  lemma ExportableExactly(s: Store)
    ensures Exportable(s) <==> forall id :: id in s.books ==>
      (forall k :: k in [PageCount, DurationMinutes, Rating] ==> IsNullOrI64(Column(s.books[id], k)))
  {
    forall id | id in s.books
      ensures ExportableBook(s.books[id]) <==>
        (forall k :: k in [PageCount, DurationMinutes, Rating] ==> IsNullOrI64(Column(s.books[id], k)))
    {
      ThreeColumns(s.books[id]);
    }
    hide ExportableBook, IsNullOrI64, Column;
  }

  lemma ThreeColumns(b: FullBook)
    ensures ExportableBook(b) <==>
      (forall k :: k in [PageCount, DurationMinutes, Rating] ==> IsNullOrI64(Column(b, k)))
  {
    var ks := [PageCount, DurationMinutes, Rating];
    assert ks[0] == PageCount && ks[1] == DurationMinutes && ks[2] == Rating;
    hide Column;
    assert forall c :: IsIntegerCell(c) <==> IsNullOrI64(c);
    hide IsIntegerCell, IsNullOrI64;
    assert PageCount in ks && DurationMinutes in ks && Rating in ks;
  }
}
