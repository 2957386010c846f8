/** Immediate redelivery: the second application of an op finds nothing left to do. */
module Redelivery {
  import opened Wrappers
  import opened Text
  import opened Library
  import opened MergeRules
  import opened BookRuns
  import opened Ledger
  import MergeEngines

  // ---------------------------------------------------------------------------
  // Book updates
  // ---------------------------------------------------------------------------

  /** The op has nothing newer for this field. */
  predicate Settled(b: Book, k: Key, obj: Object, hlc: string)
  {
    k !in obj || !Newer(hlc, ClockOf(b, k))
  }

  lemma {:induction false} SettledFieldsAreSkipped(w: Walk, ks: seq<Key>, obj: Object, hlc: string)
    requires forall k :: k in ks ==> Settled(w.book, k, obj, hlc)
    ensures VisitAll(w, ks, obj, hlc) == w
    decreases |ks|
  {
    hide StatusVerdict, Storable, ToCell, Newer;
    if ks != [] {
      assert Settled(w.book, ks[0], obj, hlc);
      SettledFieldsAreSkipped(w, ks[1..], obj, hlc);
    }
  }

  /** Walking again over the book a walk has left writes nothing and ends the same way, also when a
      field was refused halfway. */
  lemma {:induction false} SecondWalk(w: Walk, ks: seq<Key>, obj: Object, hlc: string, w2: Walk)
    requires NoDuplicates(ks) && w.halt == Going && w2.halt == Going
    requires w2.book == VisitAll(w, ks, obj, hlc).book
    ensures VisitAll(w2, ks, obj, hlc) == w2.(halt := VisitAll(w, ks, obj, hlc).halt)
    decreases |ks|
  {
    hide StatusVerdict, Storable, ToCell;
    if ks != [] {
      var k := ks[0];
      var next := Visit(w, k, obj, hlc);
      if next.halt == Going {
        LessTrichotomy(hlc, hlc);
        assert k !in ks[1..];
        WalkLeavesOthers(next, ks[1..], obj, hlc, k);
        assert Visit(w2, k, obj, hlc) == w2;
        SecondWalk(next, ks[1..], obj, hlc, w2);
      } else {
        MergeEngines.VisitHalted(next, ks[1..], obj, hlc);
        MergeEngines.VisitHalted(Visit(w2, k, obj, hlc), ks[1..], obj, hlc);
      }
    }
  }

  lemma BookUpdateTwice(t: Tables, op: Op)
    ensures BookUpdate(BookUpdate(t, op).0, op).0 == BookUpdate(t, op).0
    ensures BookUpdate(BookUpdate(t, op).0, op).1 != APPLIED
  {
    hide VisitAll;
    var u := BookUpdate(t, op).0;
    if op.entityId in t.books && t.books[op.entityId].tombstone.None? && op.fields.Some? {
      var w := Walk(t.books[op.entityId], false, Going);
      var w2 := Walk(u.books[op.entityId], false, Going);
      BookFieldsAreDistinct();
      WalkKeepsClocks(w, BOOK_FIELDS, op.fields.value, op.hlc);
      SecondWalk(w, BOOK_FIELDS, op.fields.value, op.hlc, w2);
      assert u.books[op.entityId := w2.book] == u.books;
    }
  }

  lemma BookCreateTwice(t: Tables, op: Op)
    ensures BookCreate(BookCreate(t, op).0, op).0 == BookCreate(t, op).0
    ensures BookCreate(BookCreate(t, op).0, op).1 != APPLIED
  {
    hide BookUpdate, NewCells, NewClocks;
    if op.entityId in t.books {
      BookUpdateTwice(t, op);
    } else if op.fields.Some? && op.entityId in BookCreate(t, op).0.books {
      NewBookIsSettled(t, op);
      SettledUpdate(BookCreate(t, op).0, op);
    }
  }

  /** A create records the clock of every field it carries. */
  lemma NewBookIsSettled(t: Tables, op: Op)
    requires op.entityId !in t.books && op.fields.Some? && op.entityId in BookCreate(t, op).0.books
    ensures forall k :: IsBookField(k) ==> Settled(BookCreate(t, op).0.books[op.entityId], k, op.fields.value, op.hlc)
  {
    hide BookUpdate, NewCells;
    LessTrichotomy(op.hlc, op.hlc);
  }

  lemma SettledUpdate(t: Tables, op: Op)
    requires op.entityId in t.books && op.fields.Some?
    requires forall k :: IsBookField(k) ==> Settled(t.books[op.entityId], k, op.fields.value, op.hlc)
    ensures BookUpdate(t, op) == (t, SKIPPED)
  {
    hide VisitAll;
    BookFieldsAreDistinct();
    SettledFieldsAreSkipped(Walk(t.books[op.entityId], false, Going), BOOK_FIELDS, op.fields.value, op.hlc);
    assert t.books[op.entityId := t.books[op.entityId]] == t.books;
  }

  // ---------------------------------------------------------------------------
  // Notes and reviews
  // ---------------------------------------------------------------------------

  /** The op has nothing left to do for the field: no newer clock, and no unrecorded collision. */
  predicate Rests(m: Marks, op: Op, field: Key, local: Cell)
    requires op.fields.Some?
  {
    !Wins(m, op, field) && (Collides(m, op, field, local) ==> LedgerKey(op, field) in m.conflicts)
  }

  /** After settling a field, the op rests on it. */
  lemma SettledRests(m: Marks, op: Op, field: Key, local: Cell, now: Cell)
    requires op.fields.Some?
    requires now == if Wins(m, op, field) then Delivered(op, field).value else local
    ensures Rests(Settle(m, op, field, local), op, field, now)
  {
    hide Delivered;
    LessTrichotomy(op.hlc, op.hlc);
  }

  lemma RestingChangesNothing(m: Marks, op: Op, field: Key, local: Cell)
    requires op.fields.Some? && Rests(m, op, field, local)
    ensures Settle(m, op, field, local) == m
  {
    hide Delivered;
  }

  lemma RestsBesideOther(m: Marks, op: Op, field: Key, other: Key, local: Cell, now: Cell)
    requires op.fields.Some? && other != field && Rests(m, op, other, now)
    ensures Rests(Settle(m, op, field, local), op, other, now)
  {
    hide Settle, Wins, Delivered;
    SettleOther(m, op, field, other, local);
  }

  lemma DeliveredNote(op: Op)
    requires op.entity == NoteEntity && op.fields.Some?
    ensures Delivered(op, Content) == Some(Str(GetOr(TextField(op.fields.value, Content), "")))
  {
  }

  lemma NoteUpdateTwice(t: Tables, op: Op)
    requires op.entity == NoteEntity
    ensures NoteUpdate(NoteUpdate(t, op).0, op).0 == NoteUpdate(t, op).0
    ensures !NoteUpdate(NoteUpdate(t, op).0, op).1.Applied?
  {
    hide Settle, Report, Collides, Delivered, TextField, Newer;
    if op.entityId in t.notes && t.notes[op.entityId].tombstone.None? && op.fields.Some? {
      var note := t.notes[op.entityId];
      var u := NoteUpdate(t, op).0;
      DeliveredNote(op);
      SettledRests(MarksOf(t), op, Content, Str(note.content), Str(u.notes[op.entityId].content));
      RestingNote(u, op);
    }
  }

  lemma RestingNote(t: Tables, op: Op)
    requires op.entity == NoteEntity && op.entityId in t.notes && op.fields.Some?
    requires Rests(MarksOf(t), op, Content, Str(t.notes[op.entityId].content))
    ensures NoteUpdate(t, op).0 == t && !NoteUpdate(t, op).1.Applied?
  {
    hide Settle, Report, Collides, Delivered, TextField, Newer;
    RestingChangesNothing(MarksOf(t), op, Content, Str(t.notes[op.entityId].content));
    assert t.notes[op.entityId := t.notes[op.entityId]] == t.notes;
  }

  lemma ReviewUpdateTwice(t: Tables, op: Op)
    requires op.entity == ReviewEntity
    ensures ReviewUpdate(ReviewUpdate(t, op).0, op).0 == ReviewUpdate(t, op).0
    ensures !ReviewUpdate(ReviewUpdate(t, op).0, op).1.Applied?
  {
    hide Settle, Wins, Report, TextField, IntField, Rests;
    if op.entityId in t.reviews && t.reviews[op.entityId].tombstone.None? && op.fields.Some? {
      var review, m := t.reviews[op.entityId], MarksOf(t);
      var u := ReviewUpdate(t, op).0;
      var m1 := Settle(m, op, Content, TextCell(review.content));
      var after := u.reviews[op.entityId];
      DeliveredFields(m, op);
      DeliveredFields(m1, op);
      SettledRests(m, op, Content, TextCell(review.content), TextCell(after.content));
      SettledRests(m1, op, Rating, IntCell(review.rating), IntCell(after.rating));
      RestsBesideOther(m1, op, Rating, Content, IntCell(review.rating), TextCell(after.content));
      RestingReview(u, op);
    }
  }

  lemma RestingReview(t: Tables, op: Op)
    requires op.entity == ReviewEntity && op.entityId in t.reviews && op.fields.Some?
    requires Rests(MarksOf(t), op, Content, TextCell(t.reviews[op.entityId].content))
    requires Rests(MarksOf(t), op, Rating, IntCell(t.reviews[op.entityId].rating))
    ensures ReviewUpdate(t, op).0 == t && !ReviewUpdate(t, op).1.Applied?
  {
    hide Settle, Report, Collides, Delivered, TextField, IntField, Newer, Wins;
    var review, m := t.reviews[op.entityId], MarksOf(t);
    RestingChangesNothing(m, op, Content, TextCell(review.content));
    RestingChangesNothing(m, op, Rating, IntCell(review.rating));
    assert t.reviews[op.entityId := review] == t.reviews;
    NotWinning(m, op);
  }

  lemma NotWinning(m: Marks, op: Op)
    requires op.fields.Some?
    ensures forall field, local :: Rests(m, op, field, local) ==> !Wins(m, op, field)
  {
    hide Wins;
  }

  // ---------------------------------------------------------------------------
  // The second create of a note or review
  // ---------------------------------------------------------------------------

  /** The op inserts a new note or review. */
  predicate FirstCreate(t: Tables, op: Op)
  {
    && op.opType == Create && op.fields.Some?
    && ((op.entity == NoteEntity && op.entityId !in t.notes)
        || (op.entity == ReviewEntity && op.entityId !in t.reviews))
  }

  /** The clocks differ at most by those of the fields the op carries, all set to the op's own. */
  ghost predicate OwnClocksAdded(a: map<ClockKey, FieldClock>, b: map<ClockKey, FieldClock>, op: Op)
    requires op.fields.Some?
  {
    forall ck ::
      || (ck in b && b[ck] == FieldClock(op.hlc, Some(op.device)) && Delivered(op, ck.field).Some?
          && ck == FieldKey(op, ck.field))
      || ((ck in b <==> ck in a) && (ck in a ==> b[ck] == a[ck]))
  }

  ghost predicate OnlyOwnClocksAdded(u: Tables, v: Tables, op: Op)
    requires op.fields.Some?
  {
    v == u.(clocks := v.clocks) && OwnClocksAdded(u.clocks, v.clocks, op)
  }

  lemma OwnClocksChain(a: map<ClockKey, FieldClock>, b: map<ClockKey, FieldClock>, c: map<ClockKey, FieldClock>, op: Op)
    requires op.fields.Some? && OwnClocksAdded(a, b, op) && OwnClocksAdded(b, c, op)
    ensures OwnClocksAdded(a, c, op)
  {
    hide Delivered;
  }

  /** Settling a field with the value it already has records at most its clock. */
  lemma SettleEqualValue(m: Marks, op: Op, field: Key, local: Cell)
    requires op.fields.Some? && (Delivered(op, field).Some? ==> Delivered(op, field).value == local)
    ensures Settle(m, op, field, local).conflicts == m.conflicts
    ensures OwnClocksAdded(m.clocks, Settle(m, op, field, local).clocks, op)
  {
    hide Delivered, Newer;
  }

  /** An update that delivers what the note already holds. */
  lemma NoteRewrite(u: Tables, op: Op)
    requires op.entity == NoteEntity && LiveAt(u, NoteEntity, op.entityId) && op.fields.Some?
    requires u.notes[op.entityId].content == GetOr(TextField(op.fields.value, Content), "")
    ensures OnlyOwnClocksAdded(u, NoteUpdate(u, op).0, op)
  {
    hide Settle, Report, Delivered, TextField, Newer, OwnClocksAdded;
    DeliveredNote(op);
    SettleEqualValue(MarksOf(u), op, Content, Str(u.notes[op.entityId].content));
    assert u.notes[op.entityId := u.notes[op.entityId]] == u.notes;
  }

  lemma ReviewRewrite(u: Tables, op: Op)
    requires op.entity == ReviewEntity && LiveAt(u, ReviewEntity, op.entityId) && op.fields.Some?
    requires u.reviews[op.entityId].content == TextField(op.fields.value, Content)
    requires u.reviews[op.entityId].rating == IntField(op.fields.value, Rating)
    ensures OnlyOwnClocksAdded(u, ReviewUpdate(u, op).0, op)
  {
    hide Settle, Report, TextField, IntField, Wins, Delivered, OwnClocksAdded;
    var review := u.reviews[op.entityId];
    var m := MarksOf(u);
    var m1 := Settle(m, op, Content, TextCell(review.content));
    var m2 := Settle(m1, op, Rating, IntCell(review.rating));
    DeliveredReview(op);
    SettleEqualValue(m, op, Content, TextCell(review.content));
    SettleEqualValue(m1, op, Rating, IntCell(review.rating));
    OwnClocksChain(m.clocks, m1.clocks, m2.clocks, op);
    assert u.reviews[op.entityId := review] == u.reviews;
  }

  lemma DeliveredReview(op: Op)
    requires op.entity == ReviewEntity && op.fields.Some?
    ensures Delivered(op, Content).Some? ==>
      Delivered(op, Content).value == TextCell(TextField(op.fields.value, Content))
    ensures Delivered(op, Rating).Some? ==> Delivered(op, Rating).value == IntCell(IntField(op.fields.value, Rating))
  {
  }

  lemma NoteCreateTwice(t: Tables, op: Op)
    requires op.entity == NoteEntity && FirstCreate(t, op)
    ensures OnlyOwnClocksAdded(NoteCreate(t, op).0, NoteCreate(NoteCreate(t, op).0, op).0, op)
  {
    hide NoteUpdate, Delivered, TextField, OnlyOwnClocksAdded;
    var u := NoteCreate(t, op).0;
    NothingAdded(t, op);
    if op.entityId in u.notes {
      assert NoteCreate(u, op) == NoteUpdate(u, op);
      NoteRewrite(u, op);
    } else {
      assert u == t;
    }
  }

  lemma ReviewCreateTwice(t: Tables, op: Op)
    requires op.entity == ReviewEntity && FirstCreate(t, op)
    ensures OnlyOwnClocksAdded(ReviewCreate(t, op).0, ReviewCreate(ReviewCreate(t, op).0, op).0, op)
  {
    hide ReviewUpdate, Delivered, TextField, IntField, OnlyOwnClocksAdded;
    var u := ReviewCreate(t, op).0;
    NothingAdded(t, op);
    if op.entityId in u.reviews {
      assert ReviewCreate(u, op) == ReviewUpdate(u, op);
      ReviewRewrite(u, op);
    } else {
      assert u == t;
    }
  }

  lemma NothingAdded(t: Tables, op: Op)
    requires op.fields.Some?
    ensures OnlyOwnClocksAdded(t, t, op)
  {
  }

  // ---------------------------------------------------------------------------
  // Every op
  // ---------------------------------------------------------------------------

  lemma SessionTwice(t: Tables, op: Op)
    ensures var u := SessionCreate(t, op).0; SessionCreate(u, op).0 == u && !SessionCreate(u, op).1.Applied?
  {
    hide SessionOf, IsStars;
  }

  lemma ProgressTwice(t: Tables, op: Op)
    ensures var u := ProgressCreate(t, op).0; ProgressCreate(u, op).0 == u && !ProgressCreate(u, op).1.Applied?
  {
    hide ProgressOf, Reached;
  }

  lemma FactTwice(t: Tables, op: Op, newId: Id, again: Id)
    requires op.entity.SessionEntity? || op.entity.ProgressEntity? || op.entity.DeviceEntity?
    ensures var u := Step(t, op, newId); Step(u, op, again) == u && !Merge(u, op, again).1.Applied?
  {
    hide SessionCreate, ProgressCreate, OnlyFacts;
    if op.entity.SessionEntity? {
      SessionTwice(t, op);
    } else if op.entity.ProgressEntity? {
      ProgressTwice(t, op);
    }
  }

  lemma TagCreateTwice(t: Tables, op: Op, newId: Id, again: Id)
    requires !IsTagId(t.tags, newId)
    ensures var u := TagCreate(t, op, newId).0; TagCreate(u, op, again).0 == u && !TagCreate(u, op, again).1.Applied?
  {
    hide TagKeyOf, TextField;
    var u := TagCreate(t, op, newId).0;
    if TagCreate(t, op, newId).1 == APPLIED || TagCreate(t, op, newId).1 == SKIPPED {
      LinkedTag(u, op, again);
    } else if op.fields.Some? && TagKeyOf(op.fields.value).Some? {
      UnlinkableTag(u, op, again);
    }
  }

  lemma LinkedTag(t: Tables, op: Op, newId: Id)
    requires op.fields.Some? && TagKeyOf(op.fields.value).Some?
    requires TagKeyOf(op.fields.value).value in t.tags
    requires (op.entityId, t.tags[TagKeyOf(op.fields.value).value].id) in t.bookTags
    ensures TagCreate(t, op, newId) == (t, SKIPPED)
  {
    hide TagKeyOf, TextField, IsTagId;
  }

  lemma UnlinkableTag(t: Tables, op: Op, newId: Id)
    requires op.fields.Some? && TagKeyOf(op.fields.value).Some? && op.entityId !in t.books
    requires TagKeyOf(op.fields.value).value in t.tags
    requires (op.entityId, t.tags[TagKeyOf(op.fields.value).value].id) !in t.bookTags
    ensures TagCreate(t, op, newId) == (t, Failed)
  {
    hide TagKeyOf, TextField, IsTagId;
  }

  lemma TagDeleteTwice(t: Tables, op: Op)
    ensures var u := TagDelete(t, op).0; TagDelete(u, op).0 == u && !TagDelete(u, op).1.Applied?
  {
    hide TextField;
  }

  lemma TagTwice(t: Tables, op: Op, newId: Id, again: Id)
    requires op.entity.TagEntity? && !IsTagId(t.tags, newId)
    ensures var u := Step(t, op, newId); Step(u, op, again) == u && !Merge(u, op, again).1.Applied?
  {
    hide Merge, TagCreate, TagDelete, IsTagId;
    TagMerge(t, op, newId);
    TagMerge(Step(t, op, newId), op, again);
    TagCreateTwice(t, op, newId, again);
    TagDeleteTwice(t, op);
  }

  lemma SettingUpsertTwice(t: Tables, op: Op)
    requires op.entity.SettingEntity?
    ensures var u := SettingUpsert(t, op).0; SettingUpsert(u, op).0 == u && !SettingUpsert(u, op).1.Applied?
  {
    hide SettingOf, KeyTaken, Newer;
    var u := SettingUpsert(t, op).0;
    if SettingUpsert(t, op).1 == APPLIED {
      assert u.settings[op.entityId].syncHlc == Some(op.hlc);
      UpToDateSetting(u, op);
    } else {
      assert u == t;
    }
  }

  lemma UpToDateSetting(t: Tables, op: Op)
    requires op.entityId in t.settings && t.settings[op.entityId].syncHlc == Some(op.hlc)
    ensures SettingUpsert(t, op).0 == t && !SettingUpsert(t, op).1.Applied?
  {
    hide SettingOf, KeyTaken;
    LessTrichotomy(op.hlc, op.hlc);
  }

  lemma SettingDeleteTwice(t: Tables, op: Op)
    ensures var u := SettingDelete(t, op).0; SettingDelete(u, op) == (u, SKIPPED)
  {
  }

  lemma SettingTwice(t: Tables, op: Op, newId: Id, again: Id)
    requires op.entity.SettingEntity?
    ensures var u := Step(t, op, newId); Step(u, op, again) == u && !Merge(u, op, again).1.Applied?
  {
    hide Merge, SettingUpsert, SettingDelete;
    SettingMerge(t, op, newId);
    SettingMerge(Step(t, op, newId), op, again);
    SettingUpsertTwice(t, op);
    SettingDeleteTwice(t, op);
  }

  lemma BookDeleteTwice(t: Tables, op: Op)
    ensures var u := BookDelete(t, op).0; BookDelete(u, op) == (u, SKIPPED)
  {
  }

  lemma BookTwice(t: Tables, op: Op, newId: Id, again: Id)
    requires op.entity.BookEntity?
    ensures var u := Step(t, op, newId); Step(u, op, again) == u && Merge(u, op, again).1 != APPLIED
  {
    hide Merge, BookCreate, BookUpdate, BookDelete;
    BookMerge(t, op, newId);
    BookMerge(Step(t, op, newId), op, again);
    match op.opType
    case Create => BookCreateTwice(t, op);
    case Update => BookUpdateTwice(t, op);
    case Delete => BookDeleteTwice(t, op);
  }

  lemma NoteDeleteTwice(t: Tables, op: Op)
    ensures var u := NoteDelete(t, op).0; NoteDelete(u, op) == (u, SKIPPED)
  {
  }

  lemma ReviewDeleteTwice(t: Tables, op: Op)
    ensures var u := ReviewDelete(t, op).0; ReviewDelete(u, op) == (u, SKIPPED)
  {
  }

  /** A create of a note that is there, or without fields. */
  lemma NoteCreateAgain(t: Tables, op: Op)
    requires op.entity == NoteEntity && op.opType == Create && !FirstCreate(t, op)
    ensures NoteCreate(t, op) == if op.entityId in t.notes then NoteUpdate(t, op) else (t, Rejected)
  {
    hide NoteUpdate, TextField;
  }

  lemma ReviewCreateAgain(t: Tables, op: Op)
    requires op.entity == ReviewEntity && op.opType == Create && !FirstCreate(t, op)
    ensures ReviewCreate(t, op) == if op.entityId in t.reviews then ReviewUpdate(t, op) else (t, Rejected)
  {
    hide ReviewUpdate, TextField, IntField;
  }

  lemma NoteUpdateKeepsNote(t: Tables, op: Op)
    requires op.entity == NoteEntity && op.entityId in t.notes
    ensures op.entityId in NoteUpdate(t, op).0.notes
  {
    hide NoteUpdate;
  }

  lemma ReviewUpdateKeepsReview(t: Tables, op: Op)
    requires op.entity == ReviewEntity && op.entityId in t.reviews
    ensures op.entityId in ReviewUpdate(t, op).0.reviews
  {
    hide ReviewUpdate;
  }

  lemma NoteTwice(t: Tables, op: Op, newId: Id, again: Id)
    requires op.entity.NoteEntity?
    ensures var u := Step(t, op, newId);
      if FirstCreate(t, op) then OnlyOwnClocksAdded(u, Step(u, op, again), op)
      else Step(u, op, again) == u && !Merge(u, op, again).1.Applied?
  {
    hide Merge, NoteCreate, NoteUpdate, NoteDelete, OnlyOwnClocksAdded;
    var u := Step(t, op, newId);
    NoteMerge(t, op, newId);
    NoteMerge(u, op, again);
    match op.opType
    case Create =>
      if FirstCreate(t, op) {
        NoteCreateTwice(t, op);
      } else {
        NoteCreateAgain(t, op);
        NoteUpdateTwice(t, op);
        if op.entityId in t.notes {
          NoteUpdateKeepsNote(t, op);
        }
        NoteCreateAgain(u, op);
      }
    case Update => NoteUpdateTwice(t, op);
    case Delete => NoteDeleteTwice(t, op);
  }

  lemma ReviewTwice(t: Tables, op: Op, newId: Id, again: Id)
    requires op.entity.ReviewEntity?
    ensures var u := Step(t, op, newId);
      if FirstCreate(t, op) then OnlyOwnClocksAdded(u, Step(u, op, again), op)
      else Step(u, op, again) == u && !Merge(u, op, again).1.Applied?
  {
    hide Merge, ReviewCreate, ReviewUpdate, ReviewDelete, OnlyOwnClocksAdded;
    var u := Step(t, op, newId);
    ReviewMerge(t, op, newId);
    ReviewMerge(u, op, again);
    match op.opType
    case Create =>
      if FirstCreate(t, op) {
        ReviewCreateTwice(t, op);
      } else {
        ReviewCreateAgain(t, op);
        ReviewUpdateTwice(t, op);
        if op.entityId in t.reviews {
          ReviewUpdateKeepsReview(t, op);
        }
        ReviewCreateAgain(u, op);
      }
    case Update => ReviewUpdateTwice(t, op);
    case Delete => ReviewDeleteTwice(t, op);
  }

  /** Immediate redelivery is harmless. Whatever an op did the first time (also when it was refused
      halfway or failed), applying it again changes no table and applies nothing; only the create of
      a note or review adds, the second time, the field clocks that the first did not write. */
  lemma RedeliveryIsHarmless(t: Tables, op: Op, newId: Id, again: Id)
    requires op.entity.TagEntity? ==> !IsTagId(t.tags, newId)
    ensures var u := Step(t, op, newId);
      if FirstCreate(t, op) then OnlyOwnClocksAdded(u, Step(u, op, again), op)
      else Step(u, op, again) == u && !Merge(u, op, again).1.Applied?
  {
    hide Step, Merge, OnlyOwnClocksAdded;
    match op.entity
    case BookEntity => BookTwice(t, op, newId, again); BookOutcomes(Step(t, op, newId), op, again);
    case TagEntity => TagTwice(t, op, newId, again);
    case SettingEntity => SettingTwice(t, op, newId, again);
    case NoteEntity => NoteTwice(t, op, newId, again);
    case ReviewEntity => ReviewTwice(t, op, newId, again);
    case _ => FactTwice(t, op, newId, again);
  }

  lemma BookOutcomes(t: Tables, op: Op, newId: Id)
    requires op.entity.BookEntity?
    ensures Merge(t, op, newId).1.Applied? ==> Merge(t, op, newId).1 == APPLIED
  {
    hide VisitAll;
  }

  // ---------------------------------------------------------------------------
  // When the second delivery changes something
  // ---------------------------------------------------------------------------

  /** The op inserts a new note or review, on a book that is there. */
  predicate Inserts(t: Tables, op: Op)
  {
    FirstCreate(t, op) && OnKnownBook(t, op.fields.value)
  }

  predicate OnKnownBook(t: Tables, obj: Object)
  {
    TextField(obj, BookId).Some? && TextField(obj, BookId).value in t.books
  }

  /** The create carries a field whose clock, perhaps left by an earlier note or review, is missing or older. */
  predicate LeavesClockBehind(t: Tables, op: Op)
  {
    Inserts(t, op) && (Wins(MarksOf(t), op, Content) || Wins(MarksOf(t), op, Rating))
  }

  /** Winning moves a clock, and nothing else does. */
  lemma WinningMovesClock(m: Marks, op: Op, field: Key, local: Cell)
    requires op.fields.Some?
    ensures Settle(m, op, field, local).clocks == m.clocks <==> !Wins(m, op, field)
  {
    hide Delivered, Collides, Report;
    LessTrichotomy(op.hlc, op.hlc);
    var ck := FieldKey(op, field);
    if Wins(m, op, field) {
      assert ClockIn(Settle(m, op, field, local).clocks, ck) == Some(op.hlc);
    }
  }

  lemma NoteUpdateMovesClock(u: Tables, op: Op)
    requires op.entity == NoteEntity && LiveAt(u, NoteEntity, op.entityId) && op.fields.Some?
    ensures Wins(MarksOf(u), op, Content) ==> NoteUpdate(u, op).0.clocks != u.clocks
    ensures !Wins(MarksOf(u), op, Content) ==> NoteUpdate(u, op).0.clocks == u.clocks
  {
    hide Settle, Wins, Report;
    WinningMovesClock(MarksOf(u), op, Content, Str(u.notes[op.entityId].content));
  }

  lemma ReviewUpdateMovesClock(u: Tables, op: Op)
    requires op.entity == ReviewEntity && LiveAt(u, ReviewEntity, op.entityId) && op.fields.Some?
    ensures Wins(MarksOf(u), op, Content) || Wins(MarksOf(u), op, Rating) <==> ReviewUpdate(u, op).0.clocks != u.clocks
  {
    hide Wins, Settle, Report;
    var review, m := u.reviews[op.entityId], MarksOf(u);
    var content, rating := TextCell(review.content), IntCell(review.rating);
    var m1 := Settle(m, op, Content, content);
    WinningMovesClock(m, op, Content, content);
    WinningMovesClock(m1, op, Rating, rating);
    BothMoves(m, op, content, rating);
  }

  /** The second field's clock does not put the first one's back. */
  lemma BothMoves(m: Marks, op: Op, content: Cell, rating: Cell)
    requires op.fields.Some?
    ensures var m1 := Settle(m, op, Content, content);
      && (Wins(m1, op, Rating) <==> Wins(m, op, Rating))
      && (Settle(m1, op, Rating, rating).clocks == m.clocks ==> m1.clocks == m.clocks)
  {
    hide Delivered, Collides, Report;
    var m1 := Settle(m, op, Content, content);
    var m2 := Settle(m1, op, Rating, rating);
    assert FieldKey(op, Content) != FieldKey(op, Rating);
    LessTrichotomy(op.hlc, op.hlc);
    if Wins(m, op, Content) {
      assert ClockIn(m2.clocks, FieldKey(op, Content)) == Some(op.hlc);
    }
  }

  /** The exact condition: delivering an op twice in a row equals delivering it once unless the op is the
      Create of a new note or review that carries a field without a clock as new as its own. */
  lemma RedeliveryIsExact(t: Tables, op: Op, newId: Id, again: Id)
    requires op.entity.TagEntity? ==> !IsTagId(t.tags, newId)
    ensures Step(Step(t, op, newId), op, again) == Step(t, op, newId) <==> !LeavesClockBehind(t, op)
  {
    hide Step, Merge, OnlyOwnClocksAdded, Inserts;
    var u := Step(t, op, newId);
    RedeliveryIsHarmless(t, op, newId, again);
    if FirstCreate(t, op) {
      if op.entity == NoteEntity {
        SecondNoteCreate(t, op, newId, again);
      } else {
        SecondReviewCreate(t, op, newId, again);
      }
    } else {
      assert !Inserts(t, op) by { NotInserted(t, op); }
    }
  }

  lemma NotInserted(t: Tables, op: Op)
    requires !FirstCreate(t, op)
    ensures !Inserts(t, op)
  {
  }

  lemma SecondNoteCreate(t: Tables, op: Op, newId: Id, again: Id)
    requires op.entity == NoteEntity && FirstCreate(t, op)
    requires OnlyOwnClocksAdded(Step(t, op, newId), Step(Step(t, op, newId), op, again), op)
    ensures Step(Step(t, op, newId), op, again) == Step(t, op, newId) <==> !LeavesClockBehind(t, op)
  {
    hide Merge, NoteUpdate, TextField, Wins, OwnClocksAdded;
    var u := Step(t, op, newId);
    NoteMerge(t, op, newId);
    NoteMerge(u, op, again);
    if Inserts(t, op) {
      assert NoteCreate(u, op) == NoteUpdate(u, op) && MarksOf(u) == MarksOf(t);
      NoteUpdateMovesClock(u, op);
      NoRatingWon(t, op);
    } else {
      assert u == t;
    }
  }

  lemma NoRatingWon(t: Tables, op: Op)
    requires op.entity == NoteEntity && op.fields.Some?
    ensures !Wins(MarksOf(t), op, Rating)
  {
  }

  lemma SecondReviewCreate(t: Tables, op: Op, newId: Id, again: Id)
    requires op.entity == ReviewEntity && FirstCreate(t, op)
    requires OnlyOwnClocksAdded(Step(t, op, newId), Step(Step(t, op, newId), op, again), op)
    ensures Step(Step(t, op, newId), op, again) == Step(t, op, newId) <==> !LeavesClockBehind(t, op)
  {
    hide Merge, ReviewUpdate, TextField, IntField, Wins, OwnClocksAdded;
    var u := Step(t, op, newId);
    ReviewMerge(t, op, newId);
    ReviewMerge(u, op, again);
    if Inserts(t, op) {
      assert ReviewCreate(u, op) == ReviewUpdate(u, op) && MarksOf(u) == MarksOf(t);
      ReviewUpdateMovesClock(u, op);
    } else {
      assert u == t;
    }
  }

  /** So the second Create of a note on a known book adds its clock whenever the note had none before. */
  lemma SecondNoteCreateAddsClock(t: Tables, op: Op, newId: Id, again: Id)
    requires op.entity == NoteEntity && Inserts(t, op) && FieldKey(op, Content) !in t.clocks
    ensures FieldKey(op, Content) !in Step(t, op, newId).clocks
    ensures ClockIn(Step(Step(t, op, newId), op, again).clocks, FieldKey(op, Content)) == Some(op.hlc)
  {
    hide Merge, TextField, Collides, Report;
    var u := Step(t, op, newId);
    NoteMerge(t, op, newId);
    NoteMerge(u, op, again);
    assert NoteCreate(u, op) == NoteUpdate(u, op);
  }
}
