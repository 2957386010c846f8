/** Books over whole runs: fields converge, statuses follow the automaton, clocks never go back and
    tombstones are final. */
module BookRuns {
  import opened Wrappers
  import opened Text
  import opened Affinities
  import opened Statuses
  import opened Library
  import opened MergeRules
  import opened Lww

  predicate OnBook(op: Op, id: Id)
  {
    op.entity == BookEntity && op.entityId == id
  }

  // ---------------------------------------------------------------------------
  // One update, field by field
  // ---------------------------------------------------------------------------

  function SlotOf(b: Book, k: Key): Slot<Cell>
  {
    Slot(CellOf(b, k), ClockOf(b, k))
  }

  /** The walk gets past this field, whatever the book is: it is not a status, and what the op carries for it
      meets the column constraints. */
  predicate Passes(obj: Object, k: Key)
  {
    k in obj ==> k != Status && Storable(k, ToCell(k, obj[k]))
  }

  /** The walk gets as far as field `k`. */
  predicate Reaches(obj: Object, ks: seq<Key>, k: Key)
  {
    ks == [] || ks[0] == k || (Passes(obj, ks[0]) && Reaches(obj, ks[1..], k))
  }

  /** What the object writes to a field that the walk reaches. */
  function FieldWrite(obj: Object, hlc: string, k: Key): seq<Write<Cell>>
  {
    if k in obj && Passes(obj, k) then [Write(hlc, ToCell(k, obj[k]))] else []
  }

  lemma {:induction false} WalkLeavesOthers(w: Walk, ks: seq<Key>, obj: Object, hlc: string, k: Key)
    requires k !in ks
    ensures CellOf(VisitAll(w, ks, obj, hlc).book, k) == CellOf(w.book, k)
    ensures ClockOf(VisitAll(w, ks, obj, hlc).book, k) == ClockOf(w.book, k)
    decreases |ks|
  {
    hide StatusVerdict, Storable, ToCell, Newer;
    if ks != [] {
      WalkLeavesOthers(Visit(w, ks[0], obj, hlc), ks[1..], obj, hlc, k);
    }
  }

  lemma {:induction false} WalkPutsField(w: Walk, ks: seq<Key>, obj: Object, hlc: string, k: Key)
    requires w.halt == Going && NoDuplicates(ks) && k in ks && k != Status && Reaches(obj, ks, k)
    ensures SlotOf(VisitAll(w, ks, obj, hlc).book, k) == PutAll(SlotOf(w.book, k), FieldWrite(obj, hlc, k))
    ensures VisitAll(w, ks, obj, hlc).book.tombstone == w.book.tombstone
    decreases |ks|
  {
    hide ToCell, Storable, StatusVerdict, Newer;
    var next := Visit(w, ks[0], obj, hlc);
    WalkKeepsTombstone(next, ks[1..], obj, hlc);
    if ks[0] == k {
      assert k !in ks[1..];
      WalkLeavesOthers(next, ks[1..], obj, hlc, k);
      VisitPutsField(w, obj, hlc, k);
    } else {
      assert next.halt == Going && SlotOf(next.book, k) == SlotOf(w.book, k);
      WalkPutsField(next, ks[1..], obj, hlc, k);
    }
  }

  lemma VisitPutsField(w: Walk, obj: Object, hlc: string, k: Key)
    requires w.halt == Going && k != Status
    ensures SlotOf(Visit(w, k, obj, hlc).book, k) == PutAll(SlotOf(w.book, k), FieldWrite(obj, hlc, k))
  {
    hide ToCell, Storable, Newer;
    var ws := FieldWrite(obj, hlc, k);
    if ws != [] {
      assert ws[1..] == [];
    }
  }

  lemma {:induction false} WalkKeepsTombstone(w: Walk, ks: seq<Key>, obj: Object, hlc: string)
    ensures VisitAll(w, ks, obj, hlc).book.tombstone == w.book.tombstone
    decreases |ks|
  {
    hide ToCell, Storable, StatusVerdict, Newer;
    if ks != [] {
      WalkKeepsTombstone(Visit(w, ks[0], obj, hlc), ks[1..], obj, hlc);
    }
  }

  // ---------------------------------------------------------------------------
  // Convergence
  // ---------------------------------------------------------------------------

  predicate Live(t: Tables, id: Id)
  {
    id in t.books && t.books[id].tombstone.None?
  }

  function IsLive(id: Id): Tables -> bool
  {
    (t: Tables) => Live(t, id)
  }

  /** One field of one book. */
  function FieldSlot(id: Id, k: Key): Tables -> Slot<Cell>
  {
    (t: Tables) => if id in t.books then SlotOf(t.books[id], k) else Slot(Nil, None)
  }

  /** The write an op makes to one field of a live book. */
  function WriteTo(id: Id, k: Key): Op -> seq<Write<Cell>>
  {
    (op: Op) => if OnBook(op, id) && op.opType != Delete && op.fields.Some? then FieldWrite(op.fields.value, op.hlc, k)
      else []
  }

  /** Each op on the book is an update (or a create of a book that exists) whose walk reaches the field. */
  predicate EditsReach(ops: set<Op>, id: Id, k: Key)
  {
    forall op :: op in ops && OnBook(op, id) ==>
      op.opType != Delete && (op.fields.Some? ==> Reaches(op.fields.value, BOOK_FIELDS, k))
  }

  lemma StepPutsField(t: Tables, op: Op, newId: Id, id: Id, k: Key)
    requires Live(t, id) && IsBookField(k) && k != Status && EditsReach({op}, id, k)
    ensures Live(Step(t, op, newId), id)
    ensures FieldSlot(id, k)(Step(t, op, newId)) == PutAll(FieldSlot(id, k)(t), WriteTo(id, k)(op))
  {
    hide Step, Reaches, FieldWrite, UpdatedBook, SlotOf;
    if !OnBook(op, id) {
      OtherOpsLeaveBook(t, op, newId, id);
    } else {
      assert op in {op};
      EditUpdates(t, op, newId);
      UpdatePutsField(t.books[id], op, id, k);
    }
  }

  /** An edit of a stored book is an update, also if it comes as a create. */
  lemma EditUpdates(t: Tables, op: Op, newId: Id)
    requires op.entity == BookEntity && op.opType != Delete && op.entityId in t.books
    ensures Step(t, op, newId) == BookUpdate(t, op).0
    ensures Step(t, op, newId).books == t.books[op.entityId := UpdatedBook(t.books[op.entityId], op)]
  {
    hide Merge, BookUpdate, UpdatedBook;
    BookMerge(t, op, newId);
    UpdatedBooks(t, op);
  }

  lemma UpdatePutsField(b: Book, op: Op, id: Id, k: Key)
    requires b.tombstone.None? && OnBook(op, id) && op.opType != Delete && IsBookField(k) && k != Status
    requires op.fields.Some? ==> Reaches(op.fields.value, BOOK_FIELDS, k)
    ensures UpdatedBook(b, op).tombstone.None?
    ensures SlotOf(UpdatedBook(b, op), k) == PutAll(SlotOf(b, k), WriteTo(id, k)(op))
  {
    hide VisitAll, Reaches, FieldWrite, SlotOf;
    if op.fields.Some? {
      BookFieldsAreDistinct();
      WalkPutsField(Walk(b, false, Going), BOOK_FIELDS, op.fields.value, op.hlc, k);
    }
  }

  /** An op on anything else leaves the book and its clocks as they are. */
  lemma OtherOpsLeaveBook(t: Tables, op: Op, newId: Id, id: Id)
    requires !OnBook(op, id)
    ensures id in Step(t, op, newId).books <==> id in t.books
    ensures id in t.books ==> Step(t, op, newId).books[id] == t.books[id]
  {
    hide Step;
    if op.entity == BookEntity {
      BookFrame(t, op, newId);
    } else {
      StepFrame(t, op, newId);
    }
  }

  lemma EditsTrackField(ops: set<Op>, id: Id, k: Key)
    requires IsBookField(k) && k != Status && EditsReach(ops, id, k)
    ensures Tracks(ops, IsLive(id), FieldSlot(id, k), WriteTo(id, k))
  {
    hide Step, Reaches, FieldWrite, SlotOf;
    forall t, op, newId | IsLive(id)(t) && op in ops
      ensures IsLive(id)(Step(t, op, newId))
      ensures FieldSlot(id, k)(Step(t, op, newId)) == PutAll(FieldSlot(id, k)(t), WriteTo(id, k)(op))
    {
      StepPutsField(t, op, newId, id, k);
    }
  }

  lemma EditsWriteOnce(id: Id, k: Key)
    ensures WritesOnce(WriteTo(id, k))
  {
    hide Passes, ToCell;
  }

  /** Convergence. From the same live book, two runs that deliver the same ops, in any order and any
      number of times, mixed with any ops on other entities, end with the same value and the same clock in
      every field but the status that the walk of each op reaches; and that is the value of the greatest
      clock, or the start value. */
  lemma BookFieldsConverge(t: Tables, ds: seq<Delivery>, es: seq<Delivery>, id: Id, k: Key)
    requires Live(t, id) && Ops(ds) == Ops(es) && IsBookField(k) && k != Status
    requires EditsReach(Ops(ds), id, k) && DistinctHlcs(Ops(ds), WriteTo(id, k))
    ensures Live(Run(t, ds), id) && Live(Run(t, es), id)
    ensures FieldSlot(id, k)(Run(t, ds)) == FieldSlot(id, k)(Run(t, es))
    ensures Latest(FieldSlot(id, k)(t), Writes(ds, WriteTo(id, k)), FieldSlot(id, k)(Run(t, ds)))
  {
    hide Run, Reaches, Latest;
    EditsTrackField(Ops(ds), id, k);
    EditsWriteOnce(id, k);
    RunsConverge(t, ds, es, IsLive(id), FieldSlot(id, k), WriteTo(id, k));
  }

  // ---------------------------------------------------------------------------
  // What every step keeps
  // ---------------------------------------------------------------------------

  ghost predicate ClocksAdvance(a: Book, b: Book)
  {
    forall k :: ClockOf(a, k).Some? ==>
      ClockOf(b, k).Some? && (ClockOf(b, k) == ClockOf(a, k) || Less(ClockOf(a, k).value, ClockOf(b, k).value))
  }

  function StatusOf(b: Book): Option<ReadingStatus>
  {
    if CellOf(b, Status).Str? then ParseStatus(CellOf(b, Status).text) else None
  }

  predicate StatusMoves(a: Book, b: Book)
  {
    || CellOf(a, Status) == CellOf(b, Status)
    || (StatusOf(a).Some? && StatusOf(b).Some? &&
        (StatusOf(a) == StatusOf(b) || CanTransition(StatusOf(a).value, StatusOf(b).value)))
  }

  /** A status is delivered as text. */
  predicate TextStatus(op: Op)
  {
    op.entity == BookEntity && op.fields.Some? && Status in op.fields.value ==> op.fields.value[Status].JStr?
  }

  lemma {:induction false} WalkKeepsClocks(w: Walk, ks: seq<Key>, obj: Object, hlc: string)
    ensures VisitAll(w, ks, obj, hlc).book.tombstone == w.book.tombstone
    ensures ClocksAdvance(w.book, VisitAll(w, ks, obj, hlc).book)
    decreases |ks|
  {
    hide ToCell, Storable, StatusVerdict;
    if ks != [] {
      var next := Visit(w, ks[0], obj, hlc);
      WalkKeepsClocks(next, ks[1..], obj, hlc);
      ClocksAdvanceTransitive(w.book, next.book, VisitAll(w, ks, obj, hlc).book);
    }
  }

  lemma ClocksAdvanceTransitive(a: Book, b: Book, c: Book)
    requires ClocksAdvance(a, b) && ClocksAdvance(b, c)
    ensures ClocksAdvance(a, c)
  {
    forall k | ClockOf(a, k).Some? && ClockOf(b, k) != ClockOf(a, k) && ClockOf(c, k) != ClockOf(b, k)
      ensures Less(ClockOf(a, k).value, ClockOf(c, k).value)
    {
      LessTransitive(ClockOf(a, k).value, ClockOf(b, k).value, ClockOf(c, k).value);
    }
  }

  /** A status text is written only along an edge of the automaton. */
  lemma {:induction false} WalkMovesStatus(w: Walk, ks: seq<Key>, obj: Object, hlc: string)
    requires NoDuplicates(ks) && (Status in obj ==> obj[Status].JStr?)
    ensures StatusMoves(w.book, VisitAll(w, ks, obj, hlc).book)
    ensures Status !in ks ==> CellOf(VisitAll(w, ks, obj, hlc).book, Status) == CellOf(w.book, Status)
    decreases |ks|
  {
    hide ParseStatus, CanTransition, Storable;
    if ks != [] {
      WalkMovesStatus(Visit(w, ks[0], obj, hlc), ks[1..], obj, hlc);
    }
  }

  /** One step, whatever the op: books are never removed, clocks never go back, and a deleted book
      never changes again. If statuses come as text, the status stays or follows an edge. */
  lemma StepKeepsBook(t: Tables, op: Op, newId: Id, id: Id)
    requires id in t.books
    ensures id in Step(t, op, newId).books
    ensures BookMoves(t.books[id], Step(t, op, newId).books[id], op)
  {
    hide Step, BookMoves, UpdatedBook, DeletedBook;
    if !OnBook(op, id) {
      OtherOpsLeaveBook(t, op, newId, id);
      UnmovedBook(t.books[id], op);
    } else if op.opType == Delete {
      DeletionDeletes(t, op, newId);
      DeletedBookMoves(t.books[id], op);
    } else {
      EditUpdates(t, op, newId);
      UpdatedBookMoves(t.books[id], op);
    }
  }

  /** What an op does to a stored book: its clocks advance, it is frozen once deleted, and a text status stays or
      follows an edge. */
  ghost predicate BookMoves(a: Book, b: Book, op: Op)
  {
    ClocksAdvance(a, b) && (a.tombstone.Some? ==> b == a) && (TextStatus(op) ==> StatusMoves(a, b))
  }

  lemma UnmovedBook(b: Book, op: Op)
    ensures BookMoves(b, b, op)
  {
  }

  lemma DeletionDeletes(t: Tables, op: Op, newId: Id)
    requires op.entity == BookEntity && op.opType == Delete && op.entityId in t.books
    ensures Step(t, op, newId).books == t.books[op.entityId := DeletedBook(t.books[op.entityId], op)]
  {
    hide Merge, BookDelete, DeletedBook;
    BookMerge(t, op, newId);
    DeletedBooks(t, op);
  }

  lemma DeletedBookMoves(b: Book, op: Op)
    ensures BookMoves(b, DeletedBook(b, op), op)
  {
    hide ParseStatus;
  }

  lemma UpdatedBookMoves(b: Book, op: Op)
    requires op.entity == BookEntity
    ensures BookMoves(b, UpdatedBook(b, op), op)
  {
    hide VisitAll, ParseStatus, CanTransition;
    if b.tombstone.None? && op.fields.Some? {
      BookFieldsAreDistinct();
      WalkKeepsClocks(Walk(b, false, Going), BOOK_FIELDS, op.fields.value, op.hlc);
      if TextStatus(op) {
        WalkMovesStatus(Walk(b, false, Going), BOOK_FIELDS, op.fields.value, op.hlc);
      }
    }
  }

  // ---------------------------------------------------------------------------
  // What whole runs keep
  // ---------------------------------------------------------------------------

  /** Between any two points of any run: the book stays, no clock goes back, and a deleted book is
      frozen with its clocks, however new the later ops are. */
  lemma {:induction false} RunKeepsBook(t: Tables, ds: seq<Delivery>, id: Id)
    requires id in t.books
    ensures id in Run(t, ds).books
    ensures ClocksAdvance(t.books[id], Run(t, ds).books[id])
    ensures t.books[id].tombstone.Some? ==> Run(t, ds).books[id] == t.books[id]
    decreases |ds|
  {
    hide Step;
    if ds != [] {
      var next := Step(t, ds[0].op, ds[0].newId);
      StepKeepsBook(t, ds[0].op, ds[0].newId, id);
      RunKeepsBook(next, ds[1..], id);
      ClocksAdvanceTransitive(t.books[id], next.books[id], Run(t, ds).books[id]);
    }
  }

  /** At every step of a run whose statuses come as text, every book's status stays put or moves
      along an edge of the automaton. */
  lemma RunFollowsAutomaton(t: Tables, ds: seq<Delivery>, id: Id, n: nat)
    requires n < |ds| && id in Run(t, ds[..n]).books && TextStatus(ds[n].op)
    ensures id in Run(t, ds[..n + 1]).books
    ensures StatusMoves(Run(t, ds[..n]).books[id], Run(t, ds[..n + 1]).books[id])
  {
    hide Step;
    RunSplitsAt(t, ds, n);
    StepKeepsBook(Run(t, ds[..n]), ds[n].op, ds[n].newId, id);
  }

  ghost predicate ValidStatuses(t: Tables)
  {
    forall id :: id in t.books ==> StatusOf(t.books[id]).Some?
  }

  /** Statuses come as text, and a create carries one the automaton knows, or none. */
  predicate KnownStatus(op: Op)
  {
    && TextStatus(op)
    && (op.entity == BookEntity && op.opType == Create && op.fields.Some? && Status in op.fields.value ==>
        ParseStatus(op.fields.value[Status].text).Some?)
  }

  lemma StepKeepsStatusesValid(t: Tables, op: Op, newId: Id)
    requires ValidStatuses(t) && KnownStatus(op)
    ensures ValidStatuses(Step(t, op, newId))
  {
    var u := Step(t, op, newId);
    forall id | id in u.books ensures StatusOf(u.books[id]).Some? {
      if id in t.books {
        hide Step, ParseStatus;
        StepKeepsBook(t, op, newId, id);
      } else if !OnBook(op, id) {
        hide Step;
        OtherOpsLeaveBook(t, op, newId, id);
      } else if op.opType == Create {
        assert Step(t, op, newId) == BookCreate(t, op).0;
        hide Step;
        NewBookHasStatus(t, op);
      }
    }
  }

  lemma NewBookHasStatus(t: Tables, op: Op)
    requires op.entity == BookEntity && op.opType == Create && op.entityId !in t.books && KnownStatus(op)
    ensures op.entityId in BookCreate(t, op).0.books ==> StatusOf(BookCreate(t, op).0.books[op.entityId]).Some?
  {
    hide ParseStatus, BookUpdate;
    StatusTextParses(WantToRead);
  }

  /** Every book of every reachable library has a status of the automaton. */
  lemma {:induction false} RunKeepsStatusesValid(t: Tables, ds: seq<Delivery>)
    requires ValidStatuses(t)
    requires forall d :: d in ds ==> KnownStatus(d.op)
    ensures ValidStatuses(Run(t, ds))
    decreases |ds|
  {
    hide Step;
    if ds != [] {
      StepKeepsStatusesValid(t, ds[0].op, ds[0].newId);
      RunKeepsStatusesValid(Step(t, ds[0].op, ds[0].newId), ds[1..]);
    }
  }

  /** Text is needed. A newer status of any other kind is not shown to the automaton: null breaks a constraint,
      everything else is stored as the text that is bound for it, and the book leaves the automaton exactly
      when that text is no status. No number and no truth value is one. */
  lemma UntypedStatusLeavesAutomaton(t: Tables, op: Op, v: Json)
    requires op.entity == BookEntity && Live(t, op.entityId) && StatusOf(t.books[op.entityId]).Some?
    requires op.fields == Some(map[Status := v]) && Newer(op.hlc, ClockOf(t.books[op.entityId], Status)) && !v.JStr?
    ensures Live(BookUpdate(t, op).0, op.entityId)
    ensures BookUpdate(t, op).1 == if v.JNull? then Failed else APPLIED
    ensures var b := BookUpdate(t, op).0.books[op.entityId];
      if v.JNull? then b == t.books[op.entityId] else CellOf(b, Status) == Str(SqlText(v).value)
    ensures StatusOf(BookUpdate(t, op).0.books[op.entityId]).None? <==>
      v.JInt? || v.JBool? || (v.JOther? && ParseStatus(v.raw).None?)
  {
    hide BookUpdate, ParseStatus, Newer;
    StatusValueStored(t, op, v);
    if v.JInt? {
      NumberIsNoStatus(v.number);
    } else if v.JBool? {
      StatusStartsWithLetter(if v.flag then "1" else "0");
    }
  }

  lemma StatusValueStored(t: Tables, op: Op, v: Json)
    requires op.entity == BookEntity && Live(t, op.entityId)
    requires op.fields == Some(map[Status := v]) && Newer(op.hlc, ClockOf(t.books[op.entityId], Status)) && !v.JStr?
    ensures Live(BookUpdate(t, op).0, op.entityId)
    ensures BookUpdate(t, op).1 == if v.JNull? then Failed else APPLIED
    ensures var b := BookUpdate(t, op).0.books[op.entityId];
      if v.JNull? then b == t.books[op.entityId] else CellOf(b, Status) == Str(SqlText(v).value)
  {
    hide VisitAll, StatusVerdict, SqlText, Newer;
    var w := Walk(t.books[op.entityId], false, Going);
    BookFieldsAreDistinct();
    WalkOfOneKey(w, BOOK_FIELDS, Status, op.fields.value, op.hlc);
    BoundText(v);
  }

  lemma BoundText(v: Json)
    ensures SqlText(v).None? <==> v.JNull?
  {
  }

  /** A status starts with a letter. */
  lemma StatusStartsWithLetter(s: string)
    requires s != [] && (s[0] == '-' || IsDigit(s[0]))
    ensures ParseStatus(s) == None
  {
    hide LowerCase;
    assert LowerCase(s)[0] == s[0];
  }

  /** A number is no status. */
  lemma NumberIsNoStatus(n: int)
    ensures ParseStatus(SignedDecimal(n)) == None
  {
    hide Decimal, ParseStatus;
    DecimalReadsBack(if n < 0 then -n else n);
    StatusStartsWithLetter(SignedDecimal(n));
  }

  lemma {:induction false} WalkOfOneKey(w: Walk, ks: seq<Key>, key: Key, obj: Object, hlc: string)
    requires NoDuplicates(ks) && obj.Keys == {key}
    ensures VisitAll(w, ks, obj, hlc) == if key in ks then Visit(w, key, obj, hlc) else w
    decreases |ks|
  {
    hide StatusVerdict, Storable, ToCell;
    if ks != [] {
      WalkOfOneKey(Visit(w, ks[0], obj, hlc), ks[1..], key, obj, hlc);
      assert ks[0] !in ks[1..];
    }
  }

  /** What an update of the title alone does to the title. */
  lemma TitleUpdate(t: Tables, op: Op, title: string)
    requires op.entity == BookEntity && op.entityId in t.books && t.books[op.entityId].tombstone.None?
    requires op.fields == Some(map[Title := JStr(title)])
    ensures op.entityId in BookUpdate(t, op).0.books
    ensures BookUpdate(t, op).0.books[op.entityId].tombstone == t.books[op.entityId].tombstone
    ensures CellOf(BookUpdate(t, op).0.books[op.entityId], Title) ==
      if Newer(op.hlc, ClockOf(t.books[op.entityId], Title)) then Str(title) else CellOf(t.books[op.entityId], Title)
  {
    hide VisitAll, Newer, StatusVerdict;
    var w := Walk(t.books[op.entityId], false, Going);
    BookFieldsAreDistinct();
    WalkOfOneKey(w, BOOK_FIELDS, Title, op.fields.value, op.hlc);
    WalkKeepsTombstone(w, BOOK_FIELDS, op.fields.value, op.hlc);
  }

  // ---------------------------------------------------------------------------
  // The status alone depends on the order
  // ---------------------------------------------------------------------------

  /** An update of the status alone, to any text that reads as `s`. */
  predicate SetsStatus(op: Op, id: Id, s: ReadingStatus)
  {
    && OnBook(op, id) && op.opType == Update && op.fields.Some? && op.fields.value.Keys == {Status}
    && op.fields.value[Status].JStr? && ParseStatus(op.fields.value[Status].text) == Some(s)
  }

  /** What the automaton lets through: staying, or an edge. */
  predicate Allowed(from: ReadingStatus, s: ReadingStatus)
  {
    from == s || CanTransition(from, s)
  }

  function Next(from: ReadingStatus, s: ReadingStatus): ReadingStatus
  {
    if Allowed(from, s) then s else from
  }

  lemma StatusUpdate(t: Tables, op: Op, newId: Id, id: Id, from: ReadingStatus, s: ReadingStatus)
    requires Live(t, id) && SetsStatus(op, id, s) && StatusOf(t.books[id]) == Some(from)
    ensures Live(Step(t, op, newId), id)
    ensures var b := Step(t, op, newId).books[id];
      if Newer(op.hlc, ClockOf(t.books[id], Status)) && Allowed(from, s)
      then StatusOf(b) == Some(s) && ClockOf(b, Status) == Some(op.hlc)
      else b == t.books[id]
  {
    hide VisitAll, ParseStatus, Newer;
    var w, obj := Walk(t.books[id], false, Going), op.fields.value;
    BookFieldsAreDistinct();
    WalkOfOneKey(w, BOOK_FIELDS, Status, obj, op.hlc);
    assert Step(t, op, newId) == BookUpdate(t, op).0;
  }

  /** Where an update by itself leaves the status. */
  function Middle(b: Book, first: Op, from: ReadingStatus, s1: ReadingStatus): ReadingStatus
  {
    if Newer(first.hlc, ClockOf(b, Status)) then Next(from, s1) else from
  }

  /** When the order of two status updates matters, exactly. The later one by clock decides if both orders let
      it through, or both refuse it; otherwise the orders end differently. */
  lemma StatusOrderMatters(t: Tables, id: Id, first: Op, second: Op, from: ReadingStatus, s1: ReadingStatus,
                           s2: ReadingStatus, newId: Id)
    requires Live(t, id) && StatusOf(t.books[id]) == Some(from)
    requires SetsStatus(first, id, s1) && SetsStatus(second, id, s2) && Less(first.hlc, second.hlc)
    ensures var mid := Middle(t.books[id], first, from, s1);
      var inOrder := Step(Step(t, first, newId), second, newId);
      var outOfOrder := Step(Step(t, second, newId), first, newId);
      && id in inOrder.books && id in outOfOrder.books
      && (Newer(second.hlc, ClockOf(t.books[id], Status)) ==>
          StatusOf(inOrder.books[id]) == Some(Next(mid, s2)) &&
          StatusOf(outOfOrder.books[id]) == Some(if Allowed(from, s2) then s2 else mid))
      && (StatusOf(inOrder.books[id]) == StatusOf(outOfOrder.books[id]) <==>
          mid == s2 || (Allowed(from, s2) <==> Allowed(mid, s2)))
  {
    hide Step, SetsStatus, StatusOf, ClockOf, Newer;
    if Newer(second.hlc, ClockOf(t.books[id], Status)) {
      InOrder(t, id, first, second, from, s1, s2, newId);
      OutOfOrder(t, id, first, second, from, s1, s2, newId);
    } else {
      NeitherIsNewer(first.hlc, second.hlc, ClockOf(t.books[id], Status));
      StatusUpdate(t, first, newId, id, from, s1);
      StatusUpdate(Step(t, first, newId), second, newId, id, from, s2);
      StatusUpdate(t, second, newId, id, from, s2);
      StatusUpdate(Step(t, second, newId), first, newId, id, from, s1);
    }
  }

  lemma NeitherIsNewer(first: string, second: string, clock: Option<string>)
    requires Less(first, second) && !Newer(second, clock)
    ensures !Newer(first, clock)
  {
    if Newer(first, clock) {
      LessTransitive(clock.value, first, second);
    }
  }

  lemma InOrder(t: Tables, id: Id, first: Op, second: Op, from: ReadingStatus, s1: ReadingStatus, s2: ReadingStatus,
                newId: Id)
    requires Live(t, id) && StatusOf(t.books[id]) == Some(from)
    requires SetsStatus(first, id, s1) && SetsStatus(second, id, s2) && Less(first.hlc, second.hlc)
    requires Newer(second.hlc, ClockOf(t.books[id], Status))
    ensures var mid := Middle(t.books[id], first, from, s1);
      var u := Step(Step(t, first, newId), second, newId);
      id in u.books && StatusOf(u.books[id]) == Some(Next(mid, s2))
  {
    hide Step, SetsStatus, StatusOf, ClockOf, CanTransition;
    StatusUpdate(t, first, newId, id, from, s1);
    var mid := Middle(t.books[id], first, from, s1);
    StatusUpdate(Step(t, first, newId), second, newId, id, mid, s2);
  }

  lemma OutOfOrder(t: Tables, id: Id, first: Op, second: Op, from: ReadingStatus, s1: ReadingStatus,
                   s2: ReadingStatus, newId: Id)
    requires Live(t, id) && StatusOf(t.books[id]) == Some(from)
    requires SetsStatus(first, id, s1) && SetsStatus(second, id, s2) && Less(first.hlc, second.hlc)
    requires Newer(second.hlc, ClockOf(t.books[id], Status))
    ensures var mid := Middle(t.books[id], first, from, s1);
      var u := Step(Step(t, second, newId), first, newId);
      id in u.books && StatusOf(u.books[id]) == Some(if Allowed(from, s2) then s2 else mid)
  {
    hide Step, SetsStatus, StatusOf, ClockOf, CanTransition;
    StatusUpdate(t, second, newId, id, from, s2);
    LessTrichotomy(first.hlc, second.hlc);
    StatusUpdate(Step(t, second, newId), first, newId, id, Next(from, s2), s1);
  }

  /** So convergence stops at the status. A wanted book is marked as being read and then as read: in this
      order it ends as read; the other way round the second update is refused and it ends as being read. */
  lemma StatusDependsOnOrder(t: Tables, id: Id, reading: Op, read: Op)
    requires Live(t, id) && StatusOf(t.books[id]) == Some(WantToRead) && ClockOf(t.books[id], Status) == None
    requires SetsStatus(reading, id, Reading) && SetsStatus(read, id, Read) && Less(reading.hlc, read.hlc)
    ensures id in Step(Step(t, reading, ""), read, "").books && id in Step(Step(t, read, ""), reading, "").books
    ensures StatusOf(Step(Step(t, reading, ""), read, "").books[id]) == Some(Read)
    ensures StatusOf(Step(Step(t, read, ""), reading, "").books[id]) == Some(Reading)
  {
    hide Step, SetsStatus, StatusOf, ClockOf;
    StatusOrderMatters(t, id, reading, read, WantToRead, Reading, Read, "");
  }
}
