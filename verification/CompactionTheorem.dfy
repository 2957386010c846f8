/** Compaction of the op log: the main result and why its condition is needed. */
module CompactionTheorem {
  import opened Wrappers
  import opened Text
  import opened Affinities
  import opened Library
  import opened MergeRules
  import opened Snapshots
  import opened Consistency
  import opened Compaction
  import opened CompactionRuns
  import BookRuns
  import Ledger

  // ---------------------------------------------------------------------------
  // What a prefix leaves behind
  // ---------------------------------------------------------------------------

  /** The clock, if any, is older than every op still to come. */
  ghost predicate Old(c: Option<string>, later: set<Op>)
  {
    c.Some? ==> forall op :: op in later ==> Less(c.value, op.hlc)
  }

  ghost predicate Past(b: Book, later: set<Op>)
  {
    forall k :: Old(ClockOf(b, k), later)
  }

  ghost predicate BooksPast(books: map<Id, Book>, later: set<Op>)
  {
    forall id :: id in books ==> Past(books[id], later)
  }

  ghost predicate AllPast(t: Tables, later: set<Op>)
  {
    && BooksPast(t.books, later)
    && OldClocks(t.clocks, later)
  }

  ghost predicate OldClocks(clocks: map<ClockKey, FieldClock>, later: set<Op>)
  {
    forall ck :: Old(ClockIn(clocks, ck), later)
  }

  lemma VisitKeepsPast(w: Walk, k: Key, op: Op, later: set<Op>)
    requires Past(w.book, later) && Old(Some(op.hlc), later) && op.entity == BookEntity && op.fields.Some?
    ensures Past(Visit(w, k, op.fields.value, op.hlc).book, later)
  {
    hide StatusVerdict, Storable, ToCell, Newer, Old;
    var b := Visit(w, k, op.fields.value, op.hlc).book;
    assert forall j :: ClockOf(b, j) == ClockOf(w.book, j) || ClockOf(b, j) == Some(op.hlc);
  }

  lemma {:induction false} WalkKeepsPast(w: Walk, ks: seq<Key>, op: Op, later: set<Op>)
    requires Past(w.book, later) && Old(Some(op.hlc), later) && op.entity == BookEntity && op.fields.Some?
    ensures Past(VisitAll(w, ks, op.fields.value, op.hlc).book, later)
    decreases |ks|
  {
    hide Visit, Past, Old;
    if ks != [] {
      VisitKeepsPast(w, ks[0], op, later);
      WalkKeepsPast(Visit(w, ks[0], op.fields.value, op.hlc), ks[1..], op, later);
    }
  }

  lemma UpdatedKeepsPast(b: Book, op: Op, later: set<Op>)
    requires op.entity == BookEntity && Past(b, later) && Old(Some(op.hlc), later)
    ensures Past(UpdatedBook(b, op), later)
  {
    hide VisitAll, Past, Old;
    if b.tombstone.None? && op.fields.Some? {
      WalkKeepsPast(Walk(b, false, Going), BOOK_FIELDS, op, later);
    }
  }

  lemma NewBookIsPast(obj: Object, hlc: string, later: set<Op>)
    requires Old(Some(hlc), later)
    ensures Past(NewBook(obj, hlc), later)
  {
    hide NewCells, Old;
    NoClockIsOld(later);
  }

  lemma NoClockIsOld(later: set<Op>)
    ensures Old(None, later)
  {
  }

  lemma DeletedKeepsPast(b: Book, op: Op, later: set<Op>)
    requires Past(b, later)
    ensures Past(DeletedBook(b, op), later)
  {
    hide Old;
    forall k ensures Old(ClockOf(DeletedBook(b, op), k), later) {
      assert ClockOf(DeletedBook(b, op), k) == ClockOf(b, k);
    }
  }

  lemma BooksKeepPast(t: Tables, op: Op, newId: Id, later: set<Op>)
    requires op.entity == BookEntity && BooksPast(t.books, later) && Old(Some(op.hlc), later)
    ensures BooksPast(Step(t, op, newId).books, later)
  {
    hide Merge, BookCreate, BookUpdate, BookDelete, UpdatedBook, DeletedBook, NewBook, NewCell, IsStars, Past, Old;
    BookMerge(t, op, newId);
    CreatedBooks(t, op);
    UpdatedBooks(t, op);
    DeletedBooks(t, op);
    if op.entityId in t.books {
      UpdatedKeepsPast(t.books[op.entityId], op, later);
      DeletedKeepsPast(t.books[op.entityId], op, later);
    } else if op.fields.Some? {
      NewBookIsPast(op.fields.value, op.hlc, later);
    }
  }

  lemma BookStepKeepsPast(t: Tables, op: Op, newId: Id, later: set<Op>)
    requires op.entity == BookEntity && AllPast(t, later) && Old(Some(op.hlc), later)
    ensures AllPast(Step(t, op, newId), later)
  {
    hide Step, Past, Old, OldClocks;
    BooksKeepPast(t, op, newId, later);
    StepFrame(t, op, newId);
  }

  lemma SettleKeepsOld(m: Marks, op: Op, field: Key, local: Cell, later: set<Op>)
    requires op.fields.Some? && OldClocks(m.clocks, later) && Old(Some(op.hlc), later)
    ensures OldClocks(Settle(m, op, field, local).clocks, later)
  {
    hide Delivered, Newer, Collides, Report, Old;
    var n := Settle(m, op, field, local);
    forall ck ensures Old(ClockIn(n.clocks, ck), later) {
      assert Old(ClockIn(m.clocks, ck), later);
      assert ClockIn(n.clocks, ck) == ClockIn(m.clocks, ck) || ClockIn(n.clocks, ck) == Some(op.hlc);
    }
  }

  lemma StepKeepsPast(t: Tables, op: Op, newId: Id, later: set<Op>)
    requires AllPast(t, later) && Old(Some(op.hlc), later)
    ensures AllPast(Step(t, op, newId), later)
  {
    hide Step, Past, Old, OldClocks;
    if op.entity == BookEntity {
      BookStepKeepsPast(t, op, newId, later);
    } else {
      StepFrame(t, op, newId);
      Ledger.StepEdits(t, op, newId);
      if Ledger.Edits(t, op) {
        var c := Ledger.Local(t, op, Content);
        SettleKeepsOld(MarksOf(t), op, Content, c, later);
        SettleKeepsOld(Settle(MarksOf(t), op, Content, c), op, Rating, Ledger.Local(t, op, Rating), later);
        assert MarksOf(Step(t, op, newId)) == Ledger.SettleBoth(t, op);
      } else {
        assert MarksOf(Step(t, op, newId)).clocks == MarksOf(t).clocks;
      }
    }
  }

  lemma {:induction false} RunKeepsPast(t: Tables, ds: seq<Delivery>, later: set<Op>)
    requires AllPast(t, later)
    requires forall d :: d in ds ==> Old(Some(d.op.hlc), later)
    ensures AllPast(Run(t, ds), later)
    decreases |ds|
  {
    hide Step, AllPast, Old;
    if ds != [] {
      StepKeepsPast(t, ds[0].op, ds[0].newId, later);
      RunKeepsPast(Step(t, ds[0].op, ds[0].newId), ds[1..], later);
    }
  }

  // ---------------------------------------------------------------------------
  // The snapshot mirrors the prefix
  // ---------------------------------------------------------------------------

  lemma BootstrapMirrors(t: Tables, later: set<Op>)
    requires Consistent(t) && TypedLibrary(t) && AllPast(t, later)
    ensures Mirrors(t, Bootstrapped(t), later)
  {
    hide BookOk, MirrorsBook, OldClocks, IntegersTyped;
    var b := Bootstrapped(t);
    forall id ensures id in t.books <==> id in b.books {
    }
    forall id | id in t.books ensures MirrorsBook(t.books[id], b.books[id], later) {
      hide Bootstrapped;
      BootstrappedBook(t, id);
      BookMirrorsReimport(t.books[id], later);
    }
    ClocksMirrorNone(t.clocks, later);
  }

  lemma BootstrappedBook(t: Tables, id: Id)
    requires id in t.books
    ensures id in Bootstrapped(t).books && Bootstrapped(t).books[id] == Reimport(t.books[id])
  {
    hide ImportBook, ExportBook;
  }

  lemma BookMirrorsReimport(b: Book, later: set<Op>)
    requires BookOk(b) && IntegersTyped(b) && Past(b, later)
    ensures MirrorsBook(b, Reimport(b), later)
  {
    hide BookOk, IntegersTyped, Reimport, SameCells;
    ReimportKeepsCells(b);
    SameCellsBothWays(b, Reimport(b));
    forall k ensures MirrorsClock(ClockOf(b, k), ClockOf(Reimport(b), k), later) {
      assert Old(ClockOf(b, k), later);
      assert ClockOf(Reimport(b), k) == None;
    }
  }

  lemma SameCellsBothWays(a: Book, b: Book)
    ensures SameCells(a, b) <==> SameCells(b, a)
  {
  }

  lemma ClocksMirrorNone(clocks: map<ClockKey, FieldClock>, later: set<Op>)
    requires OldClocks(clocks, later)
    ensures MirrorsClocks(clocks, map[], later)
  {
    forall ck ensures MirrorsClock(ClockIn(clocks, ck), ClockIn(map[], ck), later) {
      assert Old(ClockIn(clocks, ck), later);
    }
  }

  lemma BootstrapConsistent(t: Tables)
    requires Consistent(t) && TypedLibrary(t)
    ensures Consistent(Bootstrapped(t))
  {
    hide BookOk, TagsAreFolded, SettingKeysUnique, IsTagId, IntegersTyped, ImportBook, ExportBook;
    var b := Bootstrapped(t);
    forall id | id in t.books ensures id in b.books && BookOk(b.books[id]) {
      hide Bootstrapped;
      BootstrappedBook(t, id);
      ReimportOk(t.books[id]);
    }
  }

  lemma ReimportOk(b: Book)
    requires BookOk(b) && IntegersTyped(b)
    ensures BookOk(Reimport(b))
  {
    hide Reimport, IntegersTyped;
    ReimportKeepsCells(b);
  }

  // ---------------------------------------------------------------------------
  // The theorem
  // ---------------------------------------------------------------------------

  /** The same books, sessions, progress, tags by name, notes, reviews and settings. */
  ghost predicate SameMeaning(a: Tables, b: Tables)
  {
    && (forall id :: (id in a.books <==> id in b.books) &&
          (id in a.books ==> a.books[id].tombstone == b.books[id].tombstone && SameCells(a.books[id], b.books[id])))
    && a.sessions == b.sessions && a.progress == b.progress
    && SameTags(a, b)
    && a.notes == b.notes && a.reviews == b.reviews && a.settings == b.settings
  }

  /** The same ops in the same order; each side generates its own tag ids. */
  predicate SameOps(ds: seq<Delivery>, es: seq<Delivery>)
  {
    |ds| == |es| && forall i :: 0 <= i < |ds| ==> ds[i].op == es[i].op
  }

  lemma {:induction false} RunsMirror(a: Tables, b: Tables, ds: seq<Delivery>, es: seq<Delivery>, later: set<Op>)
    requires Mirrors(a, b, later) && Consistent(a) && Consistent(b)
    requires SameOps(ds, es) && Ops(ds) <= later && FreshIds(a, ds) && FreshIds(b, es)
    ensures Mirrors(Run(a, ds), Run(b, es), later)
    decreases |ds|
  {
    hide Step, Mirrors, Consistent, IsTagId;
    if ds != [] {
      assert ds[0].op in Ops(ds) && Ops(ds[1..]) <= Ops(ds);
      StepMirrors(a, b, ds[0].op, ds[0].newId, es[0].newId, later);
      StepConsistent(a, ds[0].op, ds[0].newId);
      StepConsistent(b, es[0].op, es[0].newId);
      RunsMirror(Step(a, ds[0].op, ds[0].newId), Step(b, es[0].op, es[0].newId), ds[1..], es[1..], later);
    }
  }

  lemma MirrorsMeansSame(a: Tables, b: Tables, later: set<Op>)
    requires Mirrors(a, b, later)
    ensures SameMeaning(a, b)
  {
    hide SameCells, MirrorsTags, MirrorsClocks;
    forall id | id in a.books
      ensures a.books[id].tombstone == b.books[id].tombstone && SameCells(a.books[id], b.books[id])
    {
      assert MirrorsBook(a.books[id], b.books[id], later);
    }
  }

  /** Compaction preserves meaning. Replay a prefix of the log from nothing, export a snapshot, import
      it into an empty database and replay the rest: if every op of the rest is newer than every op
      of the prefix, and the snapshot's integer columns hold integers, the result means the same as
      replaying the whole log. */
  lemma CompactionPreservesMeaning(prefix: seq<Delivery>, suffix: seq<Delivery>, suffix2: seq<Delivery>, s: Snapshot)
    requires forall p, q :: p in Ops(prefix) && q in Ops(suffix) ==> Less(p.hlc, q.hlc)
    requires TypedLibrary(Run(EMPTY, prefix))
    requires SameOps(suffix, suffix2)
    requires SnapshotOf(Run(EMPTY, prefix), s)
    requires FreshIds(EMPTY, prefix) && FreshIds(Run(EMPTY, prefix), suffix)
    requires Import(EMPTY, s).Some? ==> FreshIds(Import(EMPTY, s).value, suffix2)
    ensures Import(EMPTY, s).Some?
    ensures SameMeaning(Run(EMPTY, prefix + suffix), Run(Import(EMPTY, s).value, suffix2))
  {
    hide Run, Import, SnapshotOf, Consistent, AllPast, Mirrors, SameMeaning, FreshIds, TypedLibrary;
    var t, later := Run(EMPTY, prefix), Ops(suffix);
    assert Consistent(EMPTY) && AllPast(EMPTY, later) by { EmptyLibrary(later); }
    RunConsistent(EMPTY, prefix);
    forall d | d in prefix ensures Old(Some(d.op.hlc), later) {
      assert d.op in Ops(prefix);
    }
    RunKeepsPast(EMPTY, prefix, later);
    ImportInvertsExport(t, s);
    BootstrapMirrors(t, later);
    BootstrapConsistent(t);
    RunsMirror(t, Bootstrapped(t), suffix, suffix2, later);
    MirrorsMeansSame(Run(t, suffix), Run(Bootstrapped(t), suffix2), later);
    RunAppend(EMPTY, prefix, suffix);
  }

  lemma EmptyLibrary(later: set<Op>)
    ensures Consistent(EMPTY) && AllPast(EMPTY, later)
  {
  }

  /** The condition is exact. The library a snapshot stands for means the same as the one it was
      taken of if and only if every integer column holds an integer or nothing. */
  lemma SnapshotMeansTheSame(t: Tables, s: Snapshot)
    requires Consistent(t) && SnapshotOf(t, s)
    ensures Import(EMPTY, s).Some?
    ensures SameMeaning(t, Import(EMPTY, s).value) <==> TypedLibrary(t)
  {
    hide Import, SnapshotOf, BookOk, IntegersTyped, SameCells, TagsAreFolded, SettingKeysUnique, LinksKnown;
    ImportInvertsExport(t, s);
    var b := Bootstrapped(t);
    assert SameTags(t, b);
    forall id | id in t.books
      ensures id in b.books && b.books[id].tombstone == t.books[id].tombstone
      ensures SameCells(t.books[id], b.books[id]) <==> IntegersTyped(t.books[id])
    {
      hide Bootstrapped, Reimport;
      BootstrappedBook(t, id);
      ReimportKeepsCells(t.books[id]);
      SameCellsBothWays(Reimport(t.books[id]), t.books[id]);
    }
  }

  /** How a library gets there. A newer update writes any value that an integer column admits. The library
      stays fit for a snapshot exactly when an integer or nothing is stored; anything else is lost. */
  lemma IntegerColumnUpdate(t: Tables, op: Op, k: Key, v: Json)
    requires Consistent(t) && op.entity == BookEntity && BookRuns.Live(t, op.entityId)
    requires IsIntegerColumn(k) && Storable(k, ToCell(k, v)) && op.fields == Some(map[k := v])
    requires Newer(op.hlc, ClockOf(t.books[op.entityId], k))
    ensures op.entityId in BookUpdate(t, op).0.books
    ensures CellOf(BookUpdate(t, op).0.books[op.entityId], k) == ToCell(k, v)
    ensures CellOf(Reimport(BookUpdate(t, op).0.books[op.entityId]), k) ==
      if IsIntegerCell(ToCell(k, v)) then ToCell(k, v) else Nil
    ensures TypedLibrary(BookUpdate(t, op).0) ==> IsIntegerCell(ToCell(k, v))
    ensures TypedLibrary(t) && IsIntegerCell(ToCell(k, v)) ==> TypedLibrary(BookUpdate(t, op).0)
  {
    hide Consistent, BookUpdate, Reimport, Newer, ToCell, Storable, CellOf;
    StoredInColumn(t, op, k, v);
    ImportedCells(BookUpdate(t, op).0.books[op.entityId]);
  }

  lemma StoredInColumn(t: Tables, op: Op, k: Key, v: Json)
    requires op.entity == BookEntity && BookRuns.Live(t, op.entityId)
    requires IsIntegerColumn(k) && Storable(k, ToCell(k, v)) && op.fields == Some(map[k := v])
    requires Newer(op.hlc, ClockOf(t.books[op.entityId], k))
    ensures op.entityId in BookUpdate(t, op).0.books
    ensures CellOf(BookUpdate(t, op).0.books[op.entityId], k) == ToCell(k, v)
    ensures forall j :: j != k ==>
      CellOf(BookUpdate(t, op).0.books[op.entityId], j) == CellOf(t.books[op.entityId], j)
  {
    hide Visit, VisitAll, Newer, ToCell, Storable, CellOf, ClockOf;
    var w := Walk(t.books[op.entityId], false, Going);
    BookFieldsAreDistinct();
    BookRuns.WalkOfOneKey(w, BOOK_FIELDS, k, op.fields.value, op.hlc);
    ColumnVisit(w, k, op.fields.value, op.hlc);
  }

  lemma ColumnVisit(w: Walk, k: Key, obj: Object, hlc: string)
    requires w.halt == Going && k in obj && k != Status && Storable(k, ToCell(k, obj[k]))
    requires Newer(hlc, ClockOf(w.book, k))
    ensures CellOf(Visit(w, k, obj, hlc).book, k) == ToCell(k, obj[k])
    ensures forall j :: j != k ==> CellOf(Visit(w, k, obj, hlc).book, j) == CellOf(w.book, j)
  {
    hide StatusVerdict, ToCell, Storable, Newer;
  }

  /** A page count that is no number is stored as text and lost. */
  lemma TextPageCountIsLost(t: Tables, op: Op, s: string)
    requires Consistent(t) && op.entity == BookEntity && BookRuns.Live(t, op.entityId)
    requires ParseNumber(s) == None && op.fields == Some(map[PageCount := JStr(s)])
    requires Newer(op.hlc, ClockOf(t.books[op.entityId], PageCount))
    ensures op.entityId in BookUpdate(t, op).0.books
    ensures var b := BookUpdate(t, op).0.books[op.entityId];
      CellOf(b, PageCount) == Str(s) && CellOf(Reimport(b), PageCount) == Nil
    ensures !TypedLibrary(BookUpdate(t, op).0)
  {
    hide Consistent, BookUpdate, Reimport, Newer, ParseNumber, CellOf, TypedLibrary;
    IntegerColumnUpdate(t, op, PageCount, JStr(s));
  }

  /** A fraction of a star passes the rating's check, is stored as it is, and is lost. */
  lemma FractionalRatingIsLost(t: Tables, op: Op, raw: string, x: real)
    requires Consistent(t) && op.entity == BookEntity && BookRuns.Live(t, op.entityId)
    requires ParseNumber(raw) == Some(x) && 0.0 <= x <= 10.0 && x != x.Floor as real
    requires op.fields == Some(map[Rating := JOther(raw)])
    requires Newer(op.hlc, ClockOf(t.books[op.entityId], Rating))
    ensures op.entityId in BookUpdate(t, op).0.books
    ensures var b := BookUpdate(t, op).0.books[op.entityId];
      CellOf(b, Rating) == Real(x) && CellOf(Reimport(b), Rating) == Nil
    ensures !TypedLibrary(BookUpdate(t, op).0)
  {
    hide Consistent, BookUpdate, Reimport, Newer, ParseNumber, CellOf, TypedLibrary;
    IntegerColumnUpdate(t, op, Rating, JOther(raw));
  }

  /** The order is needed. An op of the rest that is not newer than a title's clock is skipped on the
      full log and applied after the snapshot. */
  lemma StaleOpDivergesAfterSnapshot(t: Tables, op: Op, title: string)
    requires Consistent(t) && op.entity == BookEntity && op.entityId in t.books && t.books[op.entityId].tombstone.None?
    requires op.fields == Some(map[Title := JStr(title)])
    requires !Newer(op.hlc, ClockOf(t.books[op.entityId], Title))
    ensures CellOf(BookUpdate(t, op).0.books[op.entityId], Title) == CellOf(t.books[op.entityId], Title)
    ensures op.entityId in BookUpdate(Bootstrapped(t), op).0.books
    ensures CellOf(BookUpdate(Bootstrapped(t), op).0.books[op.entityId], Title) == Str(title)
  {
    hide Bootstrapped, Consistent;
    var b := Bootstrapped(t);
    BootstrappedBook(t, op.entityId);
    BookRuns.TitleUpdate(t, op, title);
    assert b.books[op.entityId].tombstone.None? && ClockOf(b.books[op.entityId], Title) == None by {
      ReimportKeepsTombstone(t.books[op.entityId]);
    }
    BookRuns.TitleUpdate(b, op, title);
  }

  lemma ReimportKeepsTombstone(b: Book)
    ensures Reimport(b).tombstone == b.tombstone && Reimport(b).clocks == map[]
  {
  }
}
