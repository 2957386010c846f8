/** What convergence does not cover: runs in which a create, a deletion or an unstorable value comes between
    the edits of an entity depend on the order of delivery. */
module DeliveryOrder {
  import opened Wrappers
  import opened Text
  import opened Library
  import opened MergeRules
  import opened BookRuns
  import Ledger

  // ---------------------------------------------------------------------------
  // Before the create
  // ---------------------------------------------------------------------------

  /** The op edits or deletes a book, note or review that is not there. */
  predicate Early(t: Tables, op: Op)
  {
    op.opType != Create &&
    match op.entity
    case BookEntity => op.entityId !in t.books
    case NoteEntity => op.entityId !in t.notes
    case ReviewEntity => op.entityId !in t.reviews
    case _ => false
  }

  /** Such an op leaves no trace. */
  lemma EarlyOpsAreLost(t: Tables, op: Op, newId: Id)
    requires Early(t, op)
    ensures Step(t, op, newId) == t
  {
    hide VisitAll, TextField, Settle, Wins, Report;
    match op.entity
    case BookEntity =>
    case NoteEntity => Ledger.UnchangedNote(t, op);
    case ReviewEntity => Ledger.UnchangedReview(t, op);
  }

  /** An op on book `id` that carries a title alone. */
  predicate SetsTitle(op: Op, id: Id, title: string)
  {
    OnBook(op, id) && op.fields == Some(map[Title := JStr(title)])
  }

  lemma CreatedTitle(t: Tables, create: Op, id: Id, title: string)
    requires create.opType == Create && id !in t.books && SetsTitle(create, id, title)
    ensures Live(Step(t, create, ""), id) && CellOf(Step(t, create, "").books[id], Title) == Str(title)
    ensures ClockOf(Step(t, create, "").books[id], Title) == Some(create.hlc)
  {
    hide BookUpdate;
    assert Step(t, create, "") == BookCreate(t, create).0;
    hide Step;
  }

  lemma UpdatedTitle(t: Tables, update: Op, id: Id, title: string)
    requires update.opType == Update && Live(t, id) && SetsTitle(update, id, title)
    ensures Live(Step(t, update, ""), id)
    ensures CellOf(Step(t, update, "").books[id], Title) ==
      if Newer(update.hlc, ClockOf(t.books[id], Title)) then Str(title) else CellOf(t.books[id], Title)
  {
    hide BookUpdate;
    TitleUpdate(t, update, title);
  }

  /** An update that overtakes the create of its book is lost, although it is newer. */
  lemma UpdateBeforeCreateIsLost(t: Tables, id: Id, create: Op, update: Op, first: string, second: string)
    requires id !in t.books && create.opType == Create && update.opType == Update && Less(create.hlc, update.hlc)
    requires SetsTitle(create, id, first) && SetsTitle(update, id, second)
    ensures Live(Step(Step(t, create, ""), update, ""), id) && Live(Step(Step(t, update, ""), create, ""), id)
    ensures CellOf(Step(Step(t, create, ""), update, "").books[id], Title) == Str(second)
    ensures CellOf(Step(Step(t, update, ""), create, "").books[id], Title) == Str(first)
  {
    hide Step, SetsTitle, Live;
    TitleOpsAreOnBooks(update, id, second);
    EarlyOpsAreLost(t, update, "");
    CreatedTitle(t, create, id, first);
    UpdatedTitle(Step(t, create, ""), update, id, second);
  }

  lemma TitleOpsAreOnBooks(op: Op, id: Id, title: string)
    requires SetsTitle(op, id, title)
    ensures OnBook(op, id)
  {
  }

  // ---------------------------------------------------------------------------
  // After the deletion
  // ---------------------------------------------------------------------------

  lemma DeletedTitle(t: Tables, delete: Op, id: Id)
    requires delete.opType == Delete && OnBook(delete, id) && Live(t, id)
    ensures id in Step(t, delete, "").books
    ensures Step(t, delete, "").books[id] == t.books[id].(tombstone := Some(Tombstone(delete.hlc, delete.device)))
  {
    assert Step(t, delete, "") == BookDelete(t, delete).0;
  }

  /** An update and a deletion do not commute: both orders end with the same tombstone, but an update after the
      deletion no longer counts. */
  lemma UpdateAfterDeletionIsLost(t: Tables, id: Id, update: Op, delete: Op, title: string)
    requires Live(t, id) && update.opType == Update && delete.opType == Delete && OnBook(delete, id)
    requires SetsTitle(update, id, title) && Newer(update.hlc, ClockOf(t.books[id], Title))
    ensures var a, b := Step(Step(t, update, ""), delete, ""), Step(Step(t, delete, ""), update, "");
      && id in a.books && id in b.books && a.books[id].tombstone == b.books[id].tombstone
      && CellOf(a.books[id], Title) == Str(title) && CellOf(b.books[id], Title) == CellOf(t.books[id], Title)
  {
    hide Step, SetsTitle, Newer;
    UpdatedTitle(t, update, id, title);
    DeletedTitle(Step(t, update, ""), delete, id);
    DeletedTitle(t, delete, id);
    StepKeepsBook(Step(t, delete, ""), update, "", id);
  }

  // ---------------------------------------------------------------------------
  // Around a value that cannot be stored
  // ---------------------------------------------------------------------------

  /** An update whose title is null and which also carries a work. */
  predicate NullTitle(op: Op, id: Id, work: string)
  {
    OnBook(op, id) && op.opType == Update && op.fields == Some(map[Title := JNull, WorkId := JStr(work)])
  }

  lemma {:induction false} WalkSkipsAbsent(w: Walk, ks: seq<Key>, n: nat, obj: Object, hlc: string)
    requires n <= |ks| && forall i :: 0 <= i < n ==> ks[i] !in obj
    ensures VisitAll(w, ks, obj, hlc) == VisitAll(w, ks[n..], obj, hlc)
    decreases n
  {
    hide ToCell, Storable, StatusVerdict, Newer;
    if n > 0 {
      WalkSkipsAbsent(w, ks[1..], n - 1, obj, hlc);
      assert ks[1..][n - 1..] == ks[n..];
    }
  }

  /** A null title ends the walk when it is newer than the stored one; else the walk goes on to the work. */
  lemma NullTitleWalk(b: Book, op: Op, id: Id, work: string)
    requires NullTitle(op, id, work)
    ensures var r := VisitAll(Walk(b, false, Going), BOOK_FIELDS, op.fields.value, op.hlc).book;
      if Newer(op.hlc, ClockOf(b, Title)) || !Newer(op.hlc, ClockOf(b, WorkId)) then r == b
      else CellOf(r, WorkId) == Str(work)
  {
    hide Newer, StatusVerdict, Visit;
    var obj, w := op.fields.value, Walk(b, false, Going);
    WalkSkipsAbsent(w, BOOK_FIELDS, 10, obj, op.hlc);
    assert BOOK_FIELDS[10..] == [Title, WorkId];
    VisitTwo(w, obj, op.hlc);
    NullTitleVisits(w, obj, op.hlc, work);
  }

  lemma VisitTwo(w: Walk, obj: Object, hlc: string)
    ensures VisitAll(w, [Title, WorkId], obj, hlc) == Visit(Visit(w, Title, obj, hlc), WorkId, obj, hlc)
  {
    hide Visit;
    assert [Title, WorkId][1..] == [WorkId] && [WorkId][1..] == [];
  }

  lemma NullTitleVisits(w: Walk, obj: Object, hlc: string, work: string)
    requires w.halt == Going && obj == map[Title := JNull, WorkId := JStr(work)]
    ensures var r := Visit(Visit(w, Title, obj, hlc), WorkId, obj, hlc).book;
      if Newer(hlc, ClockOf(w.book, Title)) || !Newer(hlc, ClockOf(w.book, WorkId)) then r == w.book
        else CellOf(r, WorkId) == Str(work)
  {
    hide Newer, StatusVerdict, ClockOf;
  }

  lemma NullTitleStep(t: Tables, op: Op, id: Id, work: string)
    requires Live(t, id) && NullTitle(op, id, work)
    ensures id in Step(t, op, "").books
    ensures if Newer(op.hlc, ClockOf(t.books[id], Title)) || !Newer(op.hlc, ClockOf(t.books[id], WorkId))
      then Step(t, op, "").books[id] == t.books[id]
      else CellOf(Step(t, op, "").books[id], WorkId) == Str(work)
  {
    hide VisitAll, Newer;
    NullTitleWalk(t.books[id], op, id, work);
    assert Step(t, op, "") == BookUpdate(t, op).0;
  }

  lemma TitleUpdateKeepsWork(t: Tables, op: Op, id: Id, title: string)
    requires Live(t, id) && op.opType == Update && SetsTitle(op, id, title)
    ensures Live(Step(t, op, ""), id)
    ensures SlotOf(Step(t, op, "").books[id], WorkId) == SlotOf(t.books[id], WorkId)
    ensures Newer(op.hlc, ClockOf(t.books[id], Title)) ==> ClockOf(Step(t, op, "").books[id], Title) == Some(op.hlc)
  {
    hide VisitAll, StatusVerdict, Newer;
    var w := Walk(t.books[id], false, Going);
    BookFieldsAreDistinct();
    WalkOfOneKey(w, BOOK_FIELDS, Title, op.fields.value, op.hlc);
    assert Step(t, op, "") == BookUpdate(t, op).0;
  }

  /** A field behind one that cannot be stored depends on the order: a null title stops its own update
      unless a newer title has come first, and with it the work that the same update carries. */
  lemma UnstorableValueStopsLaterFields(t: Tables, id: Id, bad: Op, good: Op, work: string, title: string)
    requires Live(t, id) && NullTitle(bad, id, work) && good.opType == Update && SetsTitle(good, id, title)
    requires Less(bad.hlc, good.hlc) && Newer(bad.hlc, ClockOf(t.books[id], Title))
    requires Newer(bad.hlc, ClockOf(t.books[id], WorkId))
    ensures var a, b := Step(Step(t, bad, ""), good, ""), Step(Step(t, good, ""), bad, "");
      && id in a.books && id in b.books
      && CellOf(a.books[id], WorkId) == CellOf(t.books[id], WorkId) && CellOf(b.books[id], WorkId) == Str(work)
  {
    hide Step, SetsTitle, NullTitle;
    NullTitleStep(t, bad, id, work);
    TitleUpdateKeepsWork(Step(t, bad, ""), good, id, title);
    TitleUpdateKeepsWork(t, good, id, title);
    assert Newer(good.hlc,
                 ClockOf(t.books[id], Title)) by { NewerStays(bad.hlc, good.hlc, ClockOf(t.books[id], Title)); }
    assert !Newer(bad.hlc, Some(good.hlc)) by { LessTrichotomy(bad.hlc, good.hlc); }
    NullTitleStep(Step(t, good, ""), bad, id, work);
  }

  lemma NewerStays(a: string, b: string, clock: Option<string>)
    requires Newer(a, clock) && Less(a, b)
    ensures Newer(b, clock)
  {
    if clock.Some? {
      LessTransitive(clock.value, a, b);
    }
  }
}
