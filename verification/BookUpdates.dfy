/** What an update of several columns leaves in a book: its columns are written in their order up to the first one
    that stops it. */
module BookUpdates {
  import opened Wrappers
  import opened Text
  import opened Library
  import opened MergeRules
  import opened Statuses
  import opened StoredBooks
  import BookRuns

  /** The op brings a newer value for the column. */
  predicate Brings(b: Book, obj: Object, hlc: string, k: Key)
  {
    k in obj && Newer(hlc, ClockOf(b, k))
  }

  /** The book's status is known, and the named one is the same or along an edge. */
  ghost predicate MayMoveTo(b: Book, name: string)
  {
    exists from, to :: BookRuns.StatusOf(b) == Some(from) && ParseStatus(name) == Some(to) && MayMove(from, to)
  }

  predicate MayMove(from: ReadingStatus, to: ReadingStatus)
  {
    from == to || (from, to) in EDGES
  }

  /** A newer value that cannot be written: a status text that the book may not move to, or a value that the column
      does not take. */
  ghost predicate Stops(b: Book, obj: Object, hlc: string, k: Key)
  {
    Brings(b, obj, hlc, k) &&
    if k == Status && obj[k].JStr? then !MayMoveTo(b, obj[k].text) else !Storable(k, ToCell(k, obj[k]))
  }

  ghost predicate NoneStops(b: Book, obj: Object, hlc: string, ks: seq<Key>, n: nat)
    requires n <= |ks|
  {
    forall i :: 0 <= i < n ==> !Stops(b, obj, hlc, ks[i])
  }

  /** The column after the update. */
  ghost predicate Updated(b: Book, u: Book, obj: Object, hlc: string, k: Key, reached: bool)
  {
    if reached && Brings(b, obj, hlc, k) && !Stops(b, obj, hlc, k)
    then CellOf(u, k) == ToCell(k, obj[k]) && ClockOf(u, k) == Some(hlc)
    else CellOf(u, k) == CellOf(b, k) && ClockOf(u, k) == ClockOf(b, k)
  }

  // ---------------------------------------------------------------------------
  // One column
  // ---------------------------------------------------------------------------

  lemma VerdictIsMove(b: Book, name: string)
    ensures StatusVerdict(CellOf(b, Status), name) == Pass <==> MayMoveTo(b, name)
    ensures StatusVerdict(CellOf(b, Status), name) == Broken <==> BookRuns.StatusOf(b).None?
  {
    hide ParseStatus, CellOf;
    if BookRuns.StatusOf(b).Some? && ParseStatus(name).Some? {
      EdgesAreMoves(BookRuns.StatusOf(b).value, ParseStatus(name).value);
    }
    hide CanTransition, MayMove;
  }

  lemma EdgesAreMoves(from: ReadingStatus, to: ReadingStatus)
    ensures MayMove(from, to) <==> from == to || CanTransition(from, to)
  {
  }

  /** Why a column stops the update. */
  function HaltAt(b: Book, obj: Object, k: Key): Halt
  {
    if k == Status && k in obj && obj[k].JStr? && BookRuns.StatusOf(b).Some? then Refused else Broke
  }

  lemma VisitDecides(w: Walk, obj: Object, hlc: string, k: Key)
    requires w.halt == Going
    ensures Visit(w, k, obj, hlc) ==
      if Stops(w.book, obj, hlc, k) then w.(halt := HaltAt(w.book, obj, k))
      else if !Brings(w.book, obj, hlc, k) then w
      else Walk(w.book.(cells := w.book.cells[k := ToCell(k, obj[k])], clocks := w.book.clocks[k := Some(hlc)]), true,
                Going)
  {
    if k == Status && k in obj && obj[k].JStr? {
      VerdictIsMove(w.book, obj[k].text);
      assert ToCell(k, obj[k]) == Str(obj[k].text) && Storable(k, ToCell(k, obj[k]));
    }
    hide StatusVerdict, ToCell, Storable, Newer, ClockOf, CellOf, MayMoveTo, BookRuns.StatusOf;
  }

  /** A column does not change what stops the others. */
  lemma StopsAreIndependent(b: Book, c: Book, obj: Object, hlc: string, k: Key)
    requires CellOf(b, k) == CellOf(c, k) && ClockOf(b, k) == ClockOf(c, k)
    ensures Brings(b, obj, hlc, k) <==> Brings(c, obj, hlc, k)
    ensures Stops(b, obj, hlc, k) <==> Stops(c, obj, hlc, k)
    ensures HaltAt(b, obj, k) == HaltAt(c, obj, k)
  {
    hide CellOf, ClockOf, ToCell, Storable, Newer, MayMove, ParseStatus;
  }

  // ---------------------------------------------------------------------------
  // All columns
  // ---------------------------------------------------------------------------

  lemma {:induction false} HaltedWalkStays(w: Walk, ks: seq<Key>, obj: Object, hlc: string)
    requires w.halt != Going
    ensures VisitAll(w, ks, obj, hlc) == w
    decreases |ks|
  {
    if ks != [] {
      assert Visit(w, ks[0], obj, hlc) == w;
      HaltedWalkStays(w, ks[1..], obj, hlc);
    }
  }

  lemma LaterColumnsKept(w: Walk, obj: Object, hlc: string, ks: seq<Key>, i: nat)
    requires w.halt == Going && NoDuplicates(ks) && 0 < i < |ks|
    ensures var c := Visit(w, ks[0], obj, hlc).book;
      CellOf(c, ks[i]) == CellOf(w.book, ks[i]) && ClockOf(c, ks[i]) == ClockOf(w.book, ks[i])
  {
    assert ks[i] != ks[0];
    VisitDecides(w, obj, hlc, ks[0]);
    hide Stops, Brings, ToCell, Visit, HaltAt;
  }

  lemma RestAlike(w: Walk, obj: Object, hlc: string, ks: seq<Key>, n: nat)
    requires w.halt == Going && NoDuplicates(ks) && n < |ks| && !Stops(w.book, obj, hlc, ks[0])
    ensures NoneStops(w.book, obj, hlc, ks, n + 1) <==>
      NoneStops(Visit(w, ks[0], obj, hlc).book, obj, hlc, ks[1..], n)
  {
    var c := Visit(w, ks[0], obj, hlc).book;
    forall i | 0 < i < |ks|
      ensures ks[1..][i - 1] == ks[i] && (Stops(w.book, obj, hlc, ks[i]) <==> Stops(c, obj, hlc, ks[1..][i - 1]))
    {
      LaterColumnsKept(w, obj, hlc, ks, i);
      StopsAreIndependent(w.book, c, obj, hlc, ks[i]);
    }
    hide Stops, Visit;
    if NoneStops(c, obj, hlc, ks[1..], n) {
      forall i | 0 <= i < n + 1 ensures !Stops(w.book, obj, hlc, ks[i]) {
        assert i > 0 ==> !Stops(c, obj, hlc, ks[1..][i - 1]);
      }
    }
    if NoneStops(w.book, obj, hlc, ks, n + 1) {
      forall i | 0 <= i < n ensures !Stops(c, obj, hlc, ks[1..][i]) {
        assert !Stops(w.book, obj, hlc, ks[i + 1]);
      }
    }
  }

  lemma {:induction false} WalkUpdates(w: Walk, ks: seq<Key>, obj: Object, hlc: string, n: nat)
    requires w.halt == Going && NoDuplicates(ks) && n < |ks|
    ensures Updated(w.book, VisitAll(w, ks, obj, hlc).book, obj, hlc, ks[n], NoneStops(w.book, obj, hlc, ks, n))
    decreases |ks|
  {
    hide Stops, Brings, ToCell, HaltAt, CellOf, ClockOf, Visit, NoneStops;
    var next := Visit(w, ks[0], obj, hlc);
    VisitDecides(w, obj, hlc, ks[0]);
    if Stops(w.book, obj, hlc, ks[0]) {
      HaltIsNoGoing(w.book, obj, ks[0]);
      HaltedWalkStays(next, ks[1..], obj, hlc);
      FirstStops(w.book, obj, hlc, ks, n);
    } else if n == 0 {
      assert ks[0] !in ks[1..];
      BookRuns.WalkLeavesOthers(next, ks[1..], obj, hlc, ks[0]);
      FirstUpdated(w, obj, hlc, ks[0]);
      NothingBefore(w.book, obj, hlc, ks);
    } else {
      LaterColumnsKept(w, obj, hlc, ks, n);
      StopsAreIndependent(w.book, next.book, obj, hlc, ks[n]);
      RestAlike(w, obj, hlc, ks, n - 1);
      WalkUpdates(next, ks[1..], obj, hlc, n - 1);
      assert ks[1..][n - 1] == ks[n];
    }
  }

  lemma NothingBefore(b: Book, obj: Object, hlc: string, ks: seq<Key>)
    ensures NoneStops(b, obj, hlc, ks, 0)
  {
  }

  lemma FirstStops(b: Book, obj: Object, hlc: string, ks: seq<Key>, n: nat)
    requires n < |ks| && Stops(b, obj, hlc, ks[0])
    ensures NoneStops(b, obj, hlc, ks, n) ==> n == 0
  {
    hide Stops;
  }

  lemma FirstUpdated(w: Walk, obj: Object, hlc: string, k: Key)
    requires w.halt == Going && !Stops(w.book, obj, hlc, k)
    ensures Updated(w.book, Visit(w, k, obj, hlc).book, obj, hlc, k, true)
  {
    VisitDecides(w, obj, hlc, k);
    hide Stops, Brings, ToCell, HaltAt, Visit;
  }

  /** An update of a live book: a column takes a newer value exactly if no column before it, and not the column itself,
      stops the update. The rest of the book stays. */
  lemma UpdateStored(t: Tables, op: Op, newId: Id, n: nat)
    requires op.entity == BookEntity && op.opType == Update && op.fields.Some?
    requires BookRuns.Live(t, op.entityId) && n < |BOOK_FIELDS|
    ensures var b := t.books[op.entityId];
      op.entityId in Step(t, op, newId).books &&
      Updated(b, Step(t, op, newId).books[op.entityId], op.fields.value, op.hlc, BOOK_FIELDS[n],
              NoneStops(b, op.fields.value, op.hlc, BOOK_FIELDS, n))
  {
    hide Updated, NoneStops, VisitAll, Step;
    BookFieldsAreDistinct();
    UpdateStep(t, op, newId);
    WalkUpdates(Walk(t.books[op.entityId], false, Going), BOOK_FIELDS, op.fields.value, op.hlc, n);
  }

  // ---------------------------------------------------------------------------
  // The outcome
  // ---------------------------------------------------------------------------

  ghost predicate SomeBrought(b: Book, obj: Object, hlc: string, ks: seq<Key>)
  {
    exists i :: 0 <= i < |ks| && Brings(b, obj, hlc, ks[i])
  }

  lemma {:induction false} WalkGoesOn(w: Walk, ks: seq<Key>, obj: Object, hlc: string)
    requires w.halt == Going && NoDuplicates(ks) && NoneStops(w.book, obj, hlc, ks, |ks|)
    ensures VisitAll(w, ks, obj, hlc).halt == Going
    ensures VisitAll(w, ks, obj, hlc).wrote <==> w.wrote || SomeBrought(w.book, obj, hlc, ks)
    decreases |ks|
  {
    hide Stops, Brings, Visit, HaltAt, ToCell;
    if ks != [] {
      VisitDecides(w, obj, hlc, ks[0]);
      RestAlike(w, obj, hlc, ks, |ks| - 1);
      hide NoneStops;
      BroughtAlike(w, obj, hlc, ks);
      hide SomeBrought;
      WalkGoesOn(Visit(w, ks[0], obj, hlc), ks[1..], obj, hlc);
    }
  }

  lemma BroughtAlike(w: Walk, obj: Object, hlc: string, ks: seq<Key>)
    requires w.halt == Going && NoDuplicates(ks) && ks != []
    ensures SomeBrought(w.book, obj, hlc, ks) <==>
      Brings(w.book, obj, hlc, ks[0]) || SomeBrought(Visit(w, ks[0], obj, hlc).book, obj, hlc, ks[1..])
  {
    var c := Visit(w, ks[0], obj, hlc).book;
    forall i | 0 < i < |ks|
      ensures ks[1..][i - 1] == ks[i] && (Brings(w.book, obj, hlc, ks[i]) <==> Brings(c, obj, hlc, ks[1..][i - 1]))
    {
      LaterColumnsKept(w, obj, hlc, ks, i);
      StopsAreIndependent(w.book, c, obj, hlc, ks[i]);
    }
    hide Brings, Visit;
    if i :| 0 <= i < |ks| && Brings(w.book, obj, hlc, ks[i]) {
      assert i > 0 ==> Brings(c, obj, hlc, ks[1..][i - 1]);
    }
    if i :| 0 <= i < |ks[1..]| && Brings(c, obj, hlc, ks[1..][i]) {
      assert Brings(w.book, obj, hlc, ks[i + 1]);
    }
  }

  lemma {:induction false} WalkHalts(w: Walk, ks: seq<Key>, obj: Object, hlc: string, n: nat)
    requires w.halt == Going && NoDuplicates(ks) && n < |ks|
    requires NoneStops(w.book, obj, hlc, ks, n) && Stops(w.book, obj, hlc, ks[n])
    ensures VisitAll(w, ks, obj, hlc).halt == HaltAt(w.book, obj, ks[n])
    decreases |ks|
  {
    hide Stops, Brings, HaltAt, ToCell, Visit;
    var next := Visit(w, ks[0], obj, hlc);
    VisitDecides(w, obj, hlc, ks[0]);
    if n == 0 {
      HaltIsNoGoing(w.book, obj, ks[0]);
      HaltedWalkStays(next, ks[1..], obj, hlc);
    } else {
      assert !Stops(w.book, obj, hlc, ks[0]);
      LaterColumnsKept(w, obj, hlc, ks, n);
      StopsAreIndependent(w.book, next.book, obj, hlc, ks[n]);
      RestAlike(w, obj, hlc, ks, n - 1);
      hide NoneStops;
      assert ks[1..][n - 1] == ks[n];
      WalkHalts(next, ks[1..], obj, hlc, n - 1);
    }
  }

  lemma HaltIsNoGoing(b: Book, obj: Object, k: Key)
    ensures HaltAt(b, obj, k) != Going
  {
  }

  lemma UpdateOutcome(t: Tables, op: Op, newId: Id)
    requires op.entity == BookEntity && op.opType == Update && op.fields.Some? && BookRuns.Live(t, op.entityId)
    ensures var w := VisitAll(Walk(t.books[op.entityId], false, Going), BOOK_FIELDS, op.fields.value, op.hlc);
      Merge(t, op, newId).1 ==
      match w.halt
      case Refused => Rejected
      case Broke => Failed
      case Going => if w.wrote then Applied([]) else Skipped([])
  {
    hide VisitAll, OnlyBook;
  }

  /** An update that nothing stops is applied exactly if it brings a newer value. */
  lemma UpdateApplied(t: Tables, op: Op, newId: Id)
    requires op.entity == BookEntity && op.opType == Update && op.fields.Some? && BookRuns.Live(t, op.entityId)
    requires NoneStops(t.books[op.entityId], op.fields.value, op.hlc, BOOK_FIELDS, |BOOK_FIELDS|)
    ensures Merge(t, op, newId).1 ==
      if SomeBrought(t.books[op.entityId], op.fields.value, op.hlc, BOOK_FIELDS) then Applied([]) else Skipped([])
  {
    hide NoneStops, SomeBrought, VisitAll, Merge;
    BookFieldsAreDistinct();
    UpdateOutcome(t, op, newId);
    WalkGoesOn(Walk(t.books[op.entityId], false, Going), BOOK_FIELDS, op.fields.value, op.hlc);
  }

  /** One that a column stops is rejected if that is a status text and the book's own status is known, and fails
      otherwise. */
  lemma UpdateStopped(t: Tables, op: Op, newId: Id, n: nat)
    requires op.entity == BookEntity && op.opType == Update && op.fields.Some? && BookRuns.Live(t, op.entityId)
    requires n < |BOOK_FIELDS| && Stops(t.books[op.entityId], op.fields.value, op.hlc, BOOK_FIELDS[n])
    requires NoneStops(t.books[op.entityId], op.fields.value, op.hlc, BOOK_FIELDS, n)
    ensures var k := BOOK_FIELDS[n];
      Merge(t, op, newId).1 ==
      if k == Status && op.fields.value[k].JStr? && BookRuns.StatusOf(t.books[op.entityId]).Some? then Rejected
      else Failed
  {
    assert BOOK_FIELDS[n] in op.fields.value;
    hide NoneStops, VisitAll, Stops, BookRuns.StatusOf, Merge;
    BookFieldsAreDistinct();
    UpdateOutcome(t, op, newId);
    WalkHalts(Walk(t.books[op.entityId], false, Going), BOOK_FIELDS, op.fields.value, op.hlc, n);
  }

  // ---------------------------------------------------------------------------
  // The columns
  // ---------------------------------------------------------------------------

  /** The name of a book column in the op's object. */
  function ColumnName(k: Key): Option<string>
  {
    match k
    case CoverHash => Some("cover_hash")
    case Description => Some("description")
    case DurationMinutes => Some("duration_minutes")
    case Format => Some("format")
    case Language => Some("language")
    case PageCount => Some("page_count")
    case PubDate => Some("pub_date")
    case Rating => Some("rating")
    case Status => Some("status")
    case Subtitle => Some("subtitle")
    case Title => Some("title")
    case WorkId => Some("work_id")
    case _ => None
  }

  /** Every named column is visited, in the order of the names. */
  lemma ColumnsAscend(n: nat)
    requires n + 1 < |BOOK_FIELDS|
    ensures forall k :: k in BOOK_FIELDS <==> ColumnName(k).Some?
    ensures ColumnName(BOOK_FIELDS[n]).Some? && ColumnName(BOOK_FIELDS[n + 1]).Some?
    ensures Less(ColumnName(BOOK_FIELDS[n]).value, ColumnName(BOOK_FIELDS[n + 1]).value)
  {
    BookFieldsAreDistinct();
    var names := ["cover_hash", "description", "duration_minutes", "format", "language", "page_count", "pub_date",
                  "rating", "status", "subtitle", "title", "work_id"];
    NamesInOrder(n, names);
    hide Less;
    assert ColumnName(BOOK_FIELDS[n]) == Some(names[n]) && ColumnName(BOOK_FIELDS[n + 1]) == Some(names[n + 1]);
  }

  lemma NamesInOrder(n: nat, names: seq<string>)
    requires n < 11
    requires names == ["cover_hash", "description", "duration_minutes", "format", "language", "page_count", "pub_date",
                       "rating", "status", "subtitle", "title", "work_id"]
    ensures Less(names[n], names[n + 1])
  {
    SecondLetterLess("description", "duration_minutes");
    SecondLetterLess("page_count", "pub_date");
    SecondLetterLess("status", "subtitle");
    assert Less("cover_hash", "description") && Less("duration_minutes", "format") && Less("format", "language");
    assert Less("language", "page_count") && Less("pub_date", "rating") && Less("rating", "status");
    assert Less("subtitle", "title") && Less("title", "work_id");
    hide Less;
  }

  lemma SecondLetterLess(a: string, b: string)
    requires |a| > 1 && |b| > 1 && a[0] == b[0] && a[1] < b[1]
    ensures Less(a, b)
  {
    assert Less(a[1..], b[1..]);
  }
}
