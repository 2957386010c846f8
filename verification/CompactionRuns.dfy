/** The simulation behind compaction: two libraries that differ only in clocks older than every op
    still to come stay that way, op by op. */
module CompactionRuns {
  import opened Wrappers
  import opened Text
  import opened Library
  import opened MergeRules
  import opened Snapshots
  import opened Consistency
  import opened Compaction

  /** The clock in `b` is the clock in `a`, or is missing while the one in `a` is older than every
      op in `later`. */
  ghost predicate MirrorsClock(a: Option<string>, b: Option<string>, later: set<Op>)
  {
    a == b || (b.None? && a.Some? && forall op :: op in later ==> Less(a.value, op.hlc))
  }

  lemma MirroredClocksAgree(a: Option<string>, b: Option<string>, later: set<Op>, op: Op)
    requires MirrorsClock(a, b, later) && op in later
    ensures Newer(op.hlc, a) == Newer(op.hlc, b)
  {
  }

  // ---------------------------------------------------------------------------
  // Books
  // ---------------------------------------------------------------------------

  ghost predicate MirrorsBook(a: Book, b: Book, later: set<Op>)
  {
    && a.tombstone == b.tombstone && SameCells(a, b)
    && forall k :: IsBookField(k) ==> MirrorsClock(ClockOf(a, k), ClockOf(b, k), later)
  }

  ghost predicate MirrorsWalk(a: Walk, b: Walk, later: set<Op>)
  {
    MirrorsBook(a.book, b.book, later) && a.wrote == b.wrote && a.halt == b.halt
  }

  lemma WriteMirrors(a: Book, b: Book, k: Key, cell: Cell, hlc: string, later: set<Op>)
    requires MirrorsBook(a, b, later)
    ensures MirrorsBook(a.(cells := a.cells[k := cell], clocks := a.clocks[k := Some(hlc)]),
                        b.(cells := b.cells[k := cell], clocks := b.clocks[k := Some(hlc)]), later)
  {
    hide MirrorsClock;
    EqualClocksMirror(later);
  }

  lemma FieldsMirror(a: Book, b: Book, k: Key, later: set<Op>)
    requires MirrorsBook(a, b, later) && IsBookField(k)
    ensures CellOf(a, k) == CellOf(b, k) && MirrorsClock(ClockOf(a, k), ClockOf(b, k), later)
  {
    hide CellOf, ClockOf, MirrorsClock;
  }

  lemma VisitMirrors(a: Walk, b: Walk, k: Key, obj: Object, op: Op, later: set<Op>)
    requires MirrorsWalk(a, b, later) && op in later && IsBookField(k)
    ensures MirrorsWalk(Visit(a, k, obj, op.hlc), Visit(b, k, obj, op.hlc), later)
  {
    hide StatusVerdict, Storable, ToCell, Newer, MirrorsClock, MirrorsBook, CellOf, ClockOf;
    FieldsMirror(a.book, b.book, k, later);
    FieldsMirror(a.book, b.book, Status, later);
    MirroredClocksAgree(ClockOf(a.book, k), ClockOf(b.book, k), later, op);
    if k in obj {
      WriteMirrors(a.book, b.book, k, ToCell(k, obj[k]), op.hlc, later);
    }
  }

  lemma EqualClocksMirror(later: set<Op>)
    ensures forall c: Option<string> :: MirrorsClock(c, c, later)
  {
  }

  lemma {:induction false} WalkMirrors(a: Walk, b: Walk, ks: seq<Key>, obj: Object, op: Op, later: set<Op>)
    requires MirrorsWalk(a, b, later) && op in later && forall k :: k in ks ==> IsBookField(k)
    ensures MirrorsWalk(VisitAll(a, ks, obj, op.hlc), VisitAll(b, ks, obj, op.hlc), later)
    decreases |ks|
  {
    hide Visit, MirrorsWalk;
    if ks != [] {
      VisitMirrors(a, b, ks[0], obj, op, later);
      WalkMirrors(Visit(a, ks[0], obj, op.hlc), Visit(b, ks[0], obj, op.hlc), ks[1..], obj, op, later);
    }
  }

  ghost predicate MirrorsBooks(a: map<Id, Book>, b: map<Id, Book>, later: set<Op>)
  {
    forall id :: (id in a <==> id in b) && (id in a ==> MirrorsBook(a[id], b[id], later))
  }

  lemma PutMirrors(a: map<Id, Book>, b: map<Id, Book>, id: Id, x: Book, y: Book, later: set<Op>)
    requires MirrorsBooks(a, b, later) && MirrorsBook(x, y, later)
    ensures MirrorsBooks(a[id := x], b[id := y], later)
  {
    hide MirrorsBook;
  }

  lemma UpdatedMirrors(a: Book, b: Book, op: Op, later: set<Op>)
    requires MirrorsBook(a, b, later) && op in later
    ensures MirrorsBook(UpdatedBook(a, op), UpdatedBook(b, op), later)
  {
    hide VisitAll, SameCells, MirrorsClock;
    if a.tombstone.None? && op.fields.Some? {
      hide MirrorsBook;
      BookFieldsAreDistinct();
      WalkMirrors(Walk(a, false, Going), Walk(b, false, Going), BOOK_FIELDS, op.fields.value, op, later);
    }
  }

  lemma BookUpdateMirrors(a: Tables, b: Tables, op: Op, later: set<Op>)
    requires MirrorsBooks(a.books, b.books, later) && op in later
    ensures MirrorsBooks(BookUpdate(a, op).0.books, BookUpdate(b, op).0.books, later)
  {
    hide BookUpdate, UpdatedBook, MirrorsBook;
    UpdatedBooks(a, op);
    UpdatedBooks(b, op);
    if op.entityId in a.books {
      UpdatedMirrors(a.books[op.entityId], b.books[op.entityId], op, later);
      PutMirrors(a.books, b.books, op.entityId, UpdatedBook(a.books[op.entityId], op),
                 UpdatedBook(b.books[op.entityId], op), later);
    }
  }

  lemma BookCreateMirrors(a: Tables, b: Tables, op: Op, later: set<Op>)
    requires MirrorsBooks(a.books, b.books, later) && op in later
    ensures MirrorsBooks(BookCreate(a, op).0.books, BookCreate(b, op).0.books, later)
  {
    hide BookCreate, BookUpdate, NewBook, NewCell, IsStars, MirrorsBook;
    CreatedBooks(a, op);
    CreatedBooks(b, op);
    if op.entityId in a.books {
      BookUpdateMirrors(a, b, op, later);
    } else if op.fields.Some? {
      BookMirrorsItself(NewBook(op.fields.value, op.hlc), later);
      PutMirrors(a.books, b.books, op.entityId, NewBook(op.fields.value, op.hlc), NewBook(op.fields.value, op.hlc),
                 later);
    }
  }

  lemma BookMirrorsItself(b: Book, later: set<Op>)
    ensures MirrorsBook(b, b, later)
  {
  }

  lemma BookDeleteMirrors(a: Tables, b: Tables, op: Op, later: set<Op>)
    requires MirrorsBooks(a.books, b.books, later)
    ensures MirrorsBooks(BookDelete(a, op).0.books, BookDelete(b, op).0.books, later)
  {
    hide BookDelete, DeletedBook, MirrorsBook;
    DeletedBooks(a, op);
    DeletedBooks(b, op);
    if op.entityId in a.books {
      DeletedMirrors(a.books[op.entityId], b.books[op.entityId], op, later);
      PutMirrors(a.books, b.books, op.entityId, DeletedBook(a.books[op.entityId], op),
                 DeletedBook(b.books[op.entityId], op), later);
    }
  }

  lemma DeletedMirrors(a: Book, b: Book, op: Op, later: set<Op>)
    requires MirrorsBook(a, b, later)
    ensures MirrorsBook(DeletedBook(a, op), DeletedBook(b, op), later)
  {
    hide MirrorsClock;
  }

  // ---------------------------------------------------------------------------
  // Tags
  // ---------------------------------------------------------------------------

  /** The same tags by name, on the same books; the ids may differ. */
  ghost predicate MirrorsTags(a: map<TagKey, Tag>, aLinks: set<(Id, Id)>, b: map<TagKey, Tag>, bLinks: set<(Id, Id)>)
  {
    && (forall k :: k in a <==> k in b)
    && (forall k :: k in a ==> a[k].name == b[k].name)
    && (forall book, k :: k in a ==> ((book, a[k].id) in aLinks <==> (book, b[k].id) in bLinks))
  }

  ghost predicate SameTags(a: Tables, b: Tables)
  {
    MirrorsTags(a.tags, a.bookTags, b.tags, b.bookTags)
  }

  lemma TagCreateMirrors(a: Tables, b: Tables, op: Op, newA: Id, newB: Id)
    requires Consistent(a) && Consistent(b) && SameTags(a, b) && (op.entityId in a.books <==> op.entityId in b.books)
    requires !IsTagId(a.tags, newA) && !IsTagId(b.tags, newB)
    ensures SameTags(TagCreate(a, op, newA).0, TagCreate(b, op, newB).0)
  {
    hide BookOk, LowerCase, TextField, EnsureTag, SameTags, Consistent, IsTagId;
    if op.fields.Some? && TagKeyOf(op.fields.value).Some? {
      var key, name := TagKeyOf(op.fields.value).value, TextField(op.fields.value, TagName).value;
      var a1, b1 := a.(tags := EnsureTag(a.tags, key, newA, name)), b.(tags := EnsureTag(b.tags, key, newB, name));
      TagsFolded(a);
      TagsFolded(b);
      EnsureTagFolds(a.tags, key, newA, name);
      EnsureTagFolds(b.tags, key, newB, name);
      EnsureTagMirrors(a, b, key, newA, newB, name);
      LinkMirrors(a1, b1, op.entityId, key);
    }
  }

  lemma TagsFolded(t: Tables)
    requires Consistent(t)
    ensures TagsAreFolded(t.tags) && LinksKnown(t.books, t.tags, t.bookTags)
  {
  }

  lemma NewIdIsUnlinked(t: Tables, newId: Id)
    requires LinksKnown(t.books, t.tags, t.bookTags) && !IsTagId(t.tags, newId)
    ensures forall book :: (book, newId) !in t.bookTags
  {
    hide IsTagId;
  }

  lemma EnsureTagMirrors(a: Tables, b: Tables, key: TagKey, newA: Id, newB: Id, name: string)
    requires Consistent(a) && Consistent(b) && SameTags(a, b) && !IsTagId(a.tags, newA) && !IsTagId(b.tags, newB)
    ensures SameTags(a.(tags := EnsureTag(a.tags, key, newA, name)), b.(tags := EnsureTag(b.tags, key, newB, name)))
  {
    hide Consistent, LowerCase, IsTagId, LinksKnown, TagsAreFolded;
    TagsFolded(a);
    TagsFolded(b);
    NewIdIsUnlinked(a, newA);
    NewIdIsUnlinked(b, newB);
  }

  lemma LinkMirrors(a: Tables, b: Tables, book: Id, key: TagKey)
    requires SameTags(a, b) && TagsAreFolded(a.tags) && TagsAreFolded(b.tags) && key in a.tags
    ensures key in b.tags
    ensures SameTags(a.(bookTags := a.bookTags + {(book, a.tags[key].id)}),
                     b.(bookTags := b.bookTags + {(book, b.tags[key].id)}))
    ensures SameTags(a.(bookTags := a.bookTags - {(book, a.tags[key].id)}),
                     b.(bookTags := b.bookTags - {(book, b.tags[key].id)}))
    ensures (book, a.tags[key].id) in a.bookTags <==> (book, b.tags[key].id) in b.bookTags
  {
    hide LowerCase;
  }

  lemma TagDeleteMirrors(a: Tables, b: Tables, op: Op)
    requires Consistent(a) && Consistent(b) && SameTags(a, b)
    ensures SameTags(TagDelete(a, op).0, TagDelete(b, op).0)
  {
    hide BookOk, LowerCase, TextField, Consistent;
    if op.fields.Some? && TagKeyOf(op.fields.value).Some? && TagKeyOf(op.fields.value).value in a.tags {
      TagsFolded(a);
      TagsFolded(b);
      LinkMirrors(a, b, op.entityId, TagKeyOf(op.fields.value).value);
    }
  }

  // ---------------------------------------------------------------------------
  // Notes and reviews
  // ---------------------------------------------------------------------------

  ghost predicate MirrorsClocks(a: map<ClockKey, FieldClock>, b: map<ClockKey, FieldClock>, later: set<Op>)
  {
    forall ck :: MirrorsClock(ClockIn(a, ck), ClockIn(b, ck), later)
  }

  lemma SettleMirrors(m: Marks, n: Marks, op: Op, field: Key, local: Cell, later: set<Op>)
    requires op.fields.Some? && op in later && MirrorsClocks(m.clocks, n.clocks, later)
    ensures Wins(m, op, field) == Wins(n, op, field)
    ensures MirrorsClocks(Settle(m, op, field, local).clocks, Settle(n, op, field, local).clocks, later)
  {
    hide Delivered, Newer, MirrorsClock, Collides, Report;
    var ck := FieldKey(op, field);
    assert MirrorsClock(ClockIn(m.clocks, ck), ClockIn(n.clocks, ck), later);
    MirroredClocksAgree(ClockIn(m.clocks, ck), ClockIn(n.clocks, ck), later, op);
    EqualClocksMirror(later);
    var c, d := Settle(m, op, field, local).clocks, Settle(n, op, field, local).clocks;
    forall k ensures MirrorsClock(ClockIn(c, k), ClockIn(d, k), later) {
      if k == ck && Wins(m, op, field) {
        assert ClockIn(c, k) == Some(op.hlc) == ClockIn(d, k);
      } else {
        assert ClockIn(c, k) == ClockIn(m.clocks, k) && ClockIn(d, k) == ClockIn(n.clocks, k);
      }
    }
  }

  /** The same notes and reviews, and mirrored clocks. */
  ghost predicate MirrorsAnnotations(a: Tables, b: Tables, later: set<Op>)
  {
    a.notes == b.notes && a.reviews == b.reviews && MirrorsClocks(a.clocks, b.clocks, later)
  }

  lemma NoteUpdateMirrors(a: Tables, b: Tables, op: Op, later: set<Op>)
    requires op.entity == NoteEntity && op in later && MirrorsAnnotations(a, b, later)
    ensures MirrorsAnnotations(NoteUpdate(a, op).0, NoteUpdate(b, op).0, later)
  {
    hide Settle, Wins, Report, TextField, MirrorsClocks;
    if op.entityId in a.notes && a.notes[op.entityId].tombstone.None? && op.fields.Some? {
      SettleMirrors(MarksOf(a), MarksOf(b), op, Content, Str(a.notes[op.entityId].content), later);
    }
  }

  lemma ReviewUpdateMirrors(a: Tables, b: Tables, op: Op, later: set<Op>)
    requires op.entity == ReviewEntity && op in later && MirrorsAnnotations(a, b, later)
    ensures MirrorsAnnotations(ReviewUpdate(a, op).0, ReviewUpdate(b, op).0, later)
  {
    hide Settle, Wins, Report, TextField, IntField, MirrorsClocks;
    if op.entityId in a.reviews && a.reviews[op.entityId].tombstone.None? && op.fields.Some? {
      var review := a.reviews[op.entityId];
      var c := TextCell(review.content);
      SettleMirrors(MarksOf(a), MarksOf(b), op, Content, c, later);
      SettleMirrors(Settle(MarksOf(a), op, Content, c), Settle(MarksOf(b), op, Content, c), op, Rating,
                    IntCell(review.rating), later);
    }
  }

  // ---------------------------------------------------------------------------
  // Whole libraries
  // ---------------------------------------------------------------------------

  ghost predicate Mirrors(a: Tables, b: Tables, later: set<Op>)
  {
    && MirrorsBooks(a.books, b.books, later)
    && a.sessions == b.sessions && a.progress == b.progress && a.settings == b.settings
    && SameTags(a, b)
    && MirrorsAnnotations(a, b, later)
  }

  lemma BookStepBooks(a: Tables, b: Tables, op: Op, newA: Id, newB: Id, later: set<Op>)
    requires op.entity == BookEntity && op in later && MirrorsBooks(a.books, b.books, later)
    ensures MirrorsBooks(Step(a, op, newA).books, Step(b, op, newB).books, later)
  {
    hide Merge, BookCreate, BookUpdate, BookDelete, MirrorsBooks;
    BookMerge(a, op, newA);
    BookMerge(b, op, newB);
    match op.opType
    case Create => BookCreateMirrors(a, b, op, later);
    case Update => BookUpdateMirrors(a, b, op, later);
    case Delete => BookDeleteMirrors(a, b, op, later);
  }

  lemma BookStepMirrors(a: Tables, b: Tables, op: Op, newA: Id, newB: Id, later: set<Op>)
    requires op.entity == BookEntity && op in later && Mirrors(a, b, later)
    ensures Mirrors(Step(a, op, newA), Step(b, op, newB), later)
  {
    hide Step, MirrorsBooks, MirrorsClocks, MirrorsTags;
    BookStepBooks(a, b, op, newA, newB, later);
    BookFrame(a, op, newA);
    BookFrame(b, op, newB);
  }

  lemma NoteStepNotes(a: Tables, b: Tables, op: Op, newA: Id, newB: Id, later: set<Op>)
    requires op.entity == NoteEntity && op in later && MirrorsBooks(a.books, b.books, later)
    requires MirrorsAnnotations(a, b, later)
    ensures MirrorsAnnotations(Step(a, op, newA), Step(b, op, newB), later)
  {
    hide Merge, NoteUpdate, NoteDelete, NoteCreate, MirrorsBook, MirrorsAnnotations;
    NoteMerge(a, op, newA);
    NoteMerge(b, op, newB);
    match op.opType
    case Create => NoteCreateMirrors(a, b, op, later);
    case Update => NoteUpdateMirrors(a, b, op, later);
    case Delete => NoteDeleteMirrors(a, b, op, later);
  }

  lemma NoteCreateMirrors(a: Tables, b: Tables, op: Op, later: set<Op>)
    requires op.entity == NoteEntity && op in later && MirrorsBooks(a.books, b.books, later)
    requires MirrorsAnnotations(a, b, later)
    ensures MirrorsAnnotations(NoteCreate(a, op).0, NoteCreate(b, op).0, later)
  {
    hide NoteUpdate, MirrorsBook, MirrorsClocks, TextField;
    if op.entityId in a.notes {
      NoteUpdateMirrors(a, b, op, later);
    } else if op.fields.Some? && TextField(op.fields.value, BookId).Some?
              && TextField(op.fields.value, BookId).value in a.books {
      var note := Note(TextField(op.fields.value, BookId).value, GetOr(TextField(op.fields.value, Content), ""), None);
      assert NoteCreate(a, op).0.notes == a.notes[op.entityId := note];
      assert NoteCreate(b, op).0.notes == b.notes[op.entityId := note];
    }
  }

  lemma NoteDeleteMirrors(a: Tables, b: Tables, op: Op, later: set<Op>)
    requires op.entity == NoteEntity && MirrorsAnnotations(a, b, later)
    ensures MirrorsAnnotations(NoteDelete(a, op).0, NoteDelete(b, op).0, later)
  {
    hide MirrorsClocks;
  }

  lemma NoteStepMirrors(a: Tables, b: Tables, op: Op, newA: Id, newB: Id, later: set<Op>)
    requires op.entity == NoteEntity && op in later && Mirrors(a, b, later)
    ensures Mirrors(Step(a, op, newA), Step(b, op, newB), later)
  {
    hide Step, MirrorsBooks, MirrorsAnnotations, MirrorsTags;
    NoteStepNotes(a, b, op, newA, newB, later);
    NoteFrame(a, op, newA);
    NoteFrame(b, op, newB);
  }

  lemma ReviewStepReviews(a: Tables, b: Tables, op: Op, newA: Id, newB: Id, later: set<Op>)
    requires op.entity == ReviewEntity && op in later && MirrorsBooks(a.books, b.books, later)
    requires MirrorsAnnotations(a, b, later)
    ensures MirrorsAnnotations(Step(a, op, newA), Step(b, op, newB), later)
  {
    hide Merge, ReviewUpdate, ReviewDelete, ReviewCreate, MirrorsBook, MirrorsAnnotations;
    ReviewMerge(a, op, newA);
    ReviewMerge(b, op, newB);
    match op.opType
    case Create => ReviewCreateMirrors(a, b, op, later);
    case Update => ReviewUpdateMirrors(a, b, op, later);
    case Delete => ReviewDeleteMirrors(a, b, op, later);
  }

  lemma ReviewCreateMirrors(a: Tables, b: Tables, op: Op, later: set<Op>)
    requires op.entity == ReviewEntity && op in later && MirrorsBooks(a.books, b.books, later)
    requires MirrorsAnnotations(a, b, later)
    ensures MirrorsAnnotations(ReviewCreate(a, op).0, ReviewCreate(b, op).0, later)
  {
    hide ReviewUpdate, MirrorsBook, MirrorsClocks, TextField, IntField;
    if op.entityId in a.reviews {
      ReviewUpdateMirrors(a, b, op, later);
    } else if op.fields.Some? && TextField(op.fields.value, BookId).Some?
              && TextField(op.fields.value, BookId).value in a.books {
      var review := Review(TextField(op.fields.value, BookId).value, TextField(op.fields.value, Content),
                           IntField(op.fields.value, Rating), None);
      assert ReviewCreate(a, op).0.reviews == a.reviews[op.entityId := review];
      assert ReviewCreate(b, op).0.reviews == b.reviews[op.entityId := review];
    }
  }

  lemma ReviewDeleteMirrors(a: Tables, b: Tables, op: Op, later: set<Op>)
    requires op.entity == ReviewEntity && MirrorsAnnotations(a, b, later)
    ensures MirrorsAnnotations(ReviewDelete(a, op).0, ReviewDelete(b, op).0, later)
  {
    hide MirrorsClocks;
  }

  lemma ReviewStepMirrors(a: Tables, b: Tables, op: Op, newA: Id, newB: Id, later: set<Op>)
    requires op.entity == ReviewEntity && op in later && Mirrors(a, b, later)
    ensures Mirrors(Step(a, op, newA), Step(b, op, newB), later)
  {
    hide Step, MirrorsBooks, MirrorsAnnotations, MirrorsTags;
    ReviewStepReviews(a, b, op, newA, newB, later);
    ReviewFrame(a, op, newA);
    ReviewFrame(b, op, newB);
  }

  lemma TagStepMirrors(a: Tables, b: Tables, op: Op, newA: Id, newB: Id, later: set<Op>)
    requires op.entity == TagEntity && Mirrors(a, b, later) && Consistent(a) && Consistent(b)
    requires !IsTagId(a.tags, newA) && !IsTagId(b.tags, newB)
    ensures Mirrors(Step(a, op, newA), Step(b, op, newB), later)
  {
    hide Step, TagCreate, TagDelete, Consistent, MirrorsBook, MirrorsTags, MirrorsClocks, IsTagId;
    TagFrame(a, op, newA);
    TagFrame(b, op, newB);
    TagCreateMirrors(a, b, op, newA, newB);
    TagDeleteMirrors(a, b, op);
  }

  lemma SessionCreateMirrors(a: Tables, b: Tables, op: Op)
    requires a.sessions == b.sessions && (forall id :: id in a.books <==> id in b.books)
    ensures SessionCreate(a, op).0.sessions == SessionCreate(b, op).0.sessions
  {
    hide SessionOf, IsStars;
    if op.fields.None? {
    } else if SessionOf(op.fields.value, op.createdAt).None? {
    } else {
      var row := SessionOf(op.fields.value, op.createdAt).value;
      if op.entityId in a.sessions || !IsStars(IntCell(row.rating)) {
      } else if row.bookId !in a.books {
      } else {
        assert SessionCreate(a, op).0.sessions == a.sessions[op.entityId := row];
        assert SessionCreate(b, op).0.sessions == b.sessions[op.entityId := row];
      }
    }
  }

  predicate EntryLands(progress: map<Id, Progress>, sessions: map<Id, Session>, bookKnown: bool, id: Id, row: Progress)
  {
    && !Reached(progress, row.bookId, row.progressType, row.value) && id !in progress
    && bookKnown && (row.sessionId.Some? ==> row.sessionId.value in sessions)
  }

  lemma ProgressCreateTable(t: Tables, op: Op)
    ensures op.fields.None? || ProgressOf(op.fields.value, op.createdAt).None? ==>
      ProgressCreate(t, op).0.progress == t.progress
    ensures op.fields.Some? && ProgressOf(op.fields.value, op.createdAt).Some? ==>
      var row := ProgressOf(op.fields.value, op.createdAt).value;
      ProgressCreate(t, op).0.progress ==
        if EntryLands(t.progress, t.sessions, row.bookId in t.books, op.entityId, row)
          then t.progress[op.entityId := row] else t.progress
  {
    hide ProgressOf, Reached;
  }

  lemma ProgressCreateMirrors(a: Tables, b: Tables, op: Op)
    requires a.progress == b.progress && a.sessions == b.sessions && (forall id :: id in a.books <==> id in b.books)
    ensures ProgressCreate(a, op).0.progress == ProgressCreate(b, op).0.progress
  {
    hide ProgressOf, ProgressCreate, EntryLands;
    ProgressCreateTable(a, op);
    ProgressCreateTable(b, op);
  }

  lemma FactStepMirrors(a: Tables, b: Tables, op: Op, newA: Id, newB: Id, later: set<Op>)
    requires op.entity == SessionEntity || op.entity == ProgressEntity || op.entity == DeviceEntity
    requires Mirrors(a, b, later)
    ensures Mirrors(Step(a, op, newA), Step(b, op, newB), later)
  {
    hide Step, SessionCreate, ProgressCreate, MirrorsBook, MirrorsClocks, MirrorsTags;
    match op.entity
    case SessionEntity =>
      SessionFrame(a, op, newA);
      SessionFrame(b, op, newB);
      SessionCreateMirrors(a, b, op);
    case ProgressEntity =>
      ProgressFrame(a, op, newA);
      ProgressFrame(b, op, newB);
      ProgressCreateMirrors(a, b, op);
    case DeviceEntity =>
      DeviceFrame(a, op, newA);
      DeviceFrame(b, op, newB);
  }

  function UpsertedSetting(settings: map<Id, Setting>, id: Id, pair: (string, string), hlc: string): Setting
  {
    if id in settings then settings[id].(value := pair.1, syncHlc := Some(hlc)) else Setting(pair.0, pair.1, Some(hlc))
  }

  predicate SettingLands(settings: map<Id, Setting>, id: Id, pair: (string, string), hlc: string)
  {
    if id in settings then Newer(hlc, settings[id].syncHlc) else !KeyTaken(settings, pair.0)
  }

  lemma SettingUpsertTable(t: Tables, op: Op)
    ensures op.fields.None? || SettingOf(op.fields.value).None? ==> SettingUpsert(t, op).0.settings == t.settings
    ensures op.fields.Some? && SettingOf(op.fields.value).Some? ==>
      var pair := SettingOf(op.fields.value).value;
      SettingUpsert(t, op).0.settings ==
        if SettingLands(t.settings, op.entityId, pair, op.hlc)
        then t.settings[op.entityId := UpsertedSetting(t.settings, op.entityId, pair, op.hlc)] else t.settings
  {
    hide SettingOf, KeyTaken, Newer;
  }

  lemma SettingUpsertMirrors(a: Tables, b: Tables, op: Op)
    requires a.settings == b.settings
    ensures SettingUpsert(a, op).0.settings == SettingUpsert(b, op).0.settings
  {
    hide SettingOf, SettingUpsert, SettingLands, UpsertedSetting;
    SettingUpsertTable(a, op);
    SettingUpsertTable(b, op);
  }

  lemma SettingStepMirrors(a: Tables, b: Tables, op: Op, newA: Id, newB: Id, later: set<Op>)
    requires op.entity == SettingEntity && Mirrors(a, b, later)
    ensures Mirrors(Step(a, op, newA), Step(b, op, newB), later)
  {
    hide Step, MirrorsBooks, MirrorsClocks, MirrorsTags;
    SettingStepSettings(a, b, op, newA, newB);
    SettingFrame(a, op, newA);
    SettingFrame(b, op, newB);
  }

  lemma SettingStepSettings(a: Tables, b: Tables, op: Op, newA: Id, newB: Id)
    requires op.entity == SettingEntity && a.settings == b.settings
    ensures Step(a, op, newA).settings == Step(b, op, newB).settings
  {
    hide Merge, SettingUpsert;
    SettingMerge(a, op, newA);
    SettingMerge(b, op, newB);
    SettingUpsertMirrors(a, b, op);
  }

  /** One op keeps the two libraries mirrored, whatever ids they generate for a new tag. */
  lemma StepMirrors(a: Tables, b: Tables, op: Op, newA: Id, newB: Id, later: set<Op>)
    requires op in later && Mirrors(a, b, later) && Consistent(a) && Consistent(b)
    requires !IsTagId(a.tags, newA) && !IsTagId(b.tags, newB)
    ensures Mirrors(Step(a, op, newA), Step(b, op, newB), later)
  {
    hide Step, Mirrors, Consistent, IsTagId;
    match op.entity
    case BookEntity => BookStepMirrors(a, b, op, newA, newB, later);
    case TagEntity => TagStepMirrors(a, b, op, newA, newB, later);
    case NoteEntity => NoteStepMirrors(a, b, op, newA, newB, later);
    case ReviewEntity => ReviewStepMirrors(a, b, op, newA, newB, later);
    case SettingEntity => SettingStepMirrors(a, b, op, newA, newB, later);
    case _ => FactStepMirrors(a, b, op, newA, newB, later);
  }
}
