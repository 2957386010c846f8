/** What notes and reviews hold after each op, told from the JSON object it carries. */
module StoredRemarks {
  import opened Wrappers
  import opened Text
  import opened Library
  import opened MergeRules
  import opened StoredRows

  // ---------------------------------------------------------------------------
  // Notes and reviews
  // ---------------------------------------------------------------------------

  predicate NamesKnownBook(t: Tables, op: Op)
  {
    op.fields.Some? && IsText(op.fields.value, BookId) && op.fields.value[BookId].text in t.books
  }

  /** The create of a note that is not there adds it, on a known book, and writes no clock. */
  lemma NoteStored(t: Tables, op: Op, newId: Id)
    requires op.entity == NoteEntity && op.opType == Create && op.entityId !in t.notes
    ensures var u := Step(t, op, newId);
      && u == t.(notes := u.notes)
      && if NamesKnownBook(t, op)
         then RowAdded(t.notes, u.notes, op.entityId) && u.notes[op.entityId].bookId == op.fields.value[BookId].text
           && TextOr(u.notes[op.entityId].content, op.fields.value, Content, "")
           && u.notes[op.entityId].tombstone == None
         else u.notes == t.notes
  {
    NoteMerge(t, op, newId);
    if op.fields.Some? {
      FieldReads(op.fields.value, BookId);
      FieldReads(op.fields.value, Content);
    }
    if NamesKnownBook(t, op) {
      PutAddsRow(t.notes, op.entityId, NoteCreate(t, op).0.notes[op.entityId]);
    }
    hide Merge, OnlyNote, NoteUpdate, TextField, IsText, RowAdded;
  }

  lemma ReviewStored(t: Tables, op: Op, newId: Id)
    requires op.entity == ReviewEntity && op.opType == Create && op.entityId !in t.reviews
    ensures var u := Step(t, op, newId);
      && u == t.(reviews := u.reviews)
      && if NamesKnownBook(t, op)
         then RowAdded(t.reviews, u.reviews, op.entityId)
           && u.reviews[op.entityId].bookId == op.fields.value[BookId].text
           && TextIs(u.reviews[op.entityId].content, op.fields.value, Content)
           && NumberIs(u.reviews[op.entityId].rating, op.fields.value, Rating)
           && u.reviews[op.entityId].tombstone == None
         else u.reviews == t.reviews
  {
    ReviewMerge(t, op, newId);
    if op.fields.Some? {
      FieldReads(op.fields.value, BookId);
      FieldReads(op.fields.value, Content);
      FieldReads(op.fields.value, Rating);
    }
    if NamesKnownBook(t, op) {
      PutAddsRow(t.reviews, op.entityId, ReviewCreate(t, op).0.reviews[op.entityId]);
    }
    hide Merge, OnlyReview, RowAdded, ReviewUpdate, TextField, IntField, IsText, IsNumber, TextIs, NumberIs;
  }

  /** The op's clock is newer than the stored one for the field, if there is one. */
  predicate IsNewerFor(t: Tables, op: Op, field: Key)
  {
    var ck := ClockKey(op.entity, op.entityId, field);
    ck in t.clocks ==> Less(t.clocks[ck].hlc, op.hlc)
  }

  /** An edit of a live note replaces the content exactly when it is newer, and then also sets clock and device. */
  lemma NoteEdited(t: Tables, op: Op, newId: Id)
    requires op.entity == NoteEntity && op.opType != Delete && op.fields.Some?
    requires op.entityId in t.notes && t.notes[op.entityId].tombstone == None
    ensures var u, ck := Step(t, op, newId), ClockKey(NoteEntity, op.entityId, Content);
      && op.entityId in u.notes && u.notes == t.notes[op.entityId := u.notes[op.entityId]]
      && u.notes[op.entityId].bookId == t.notes[op.entityId].bookId && u.notes[op.entityId].tombstone == None
      && if IsNewerFor(t, op, Content)
         then TextOr(u.notes[op.entityId].content, op.fields.value, Content, "")
           && u.clocks == t.clocks[ck := FieldClock(op.hlc, Some(op.device))]
         else u.notes[op.entityId].content == t.notes[op.entityId].content && u.clocks == t.clocks
  {
    NoteMerge(t, op, newId);
    hide Merge, OnlyNote, Collides, Report;
  }

  /** What the op carries for a field of a review is newer than the stored clock. */
  lemma ReviewWins(t: Tables, op: Op, field: Key)
    requires op.entity == ReviewEntity && op.fields.Some? && (field == Content || field == Rating)
    ensures Wins(MarksOf(t), op, field) <==> field in op.fields.value && IsNewerFor(t, op, field)
  {
  }

  lemma RatingWinsBeside(t: Tables, op: Op, local: Cell)
    requires op.entity == ReviewEntity && op.fields.Some?
    ensures Wins(Settle(MarksOf(t), op, Content, local), op, Rating) <==> Wins(MarksOf(t), op, Rating)
  {
    hide Collides, Report, Delivered;
  }

  lemma EditedReview(t: Tables, op: Op)
    requires op.entity == ReviewEntity && op.fields.Some?
    requires op.entityId in t.reviews && t.reviews[op.entityId].tombstone == None
    ensures var review := t.reviews[op.entityId];
      ReviewUpdate(t, op).0.reviews == t.reviews[op.entityId := review.(
        content := if Wins(MarksOf(t), op, Content) then TextField(op.fields.value, Content) else review.content,
        rating := if Wins(MarksOf(t), op, Rating) then IntField(op.fields.value, Rating) else review.rating)]
  {
    RatingWinsBeside(t, op, TextCell(t.reviews[op.entityId].content));
    hide Wins, Settle, Report, TextField, IntField, OnlyReview;
  }

  lemma ReviewEditStep(t: Tables, op: Op, newId: Id)
    requires op.entity == ReviewEntity && op.opType != Delete && op.entityId in t.reviews
    ensures Step(t, op, newId) == ReviewUpdate(t, op).0
  {
    ReviewMerge(t, op, newId);
    hide Merge, OnlyReview, ReviewUpdate;
  }

  /** An edit of a live review does so for each of the two fields that it carries. */
  lemma ReviewEdited(t: Tables, op: Op, newId: Id)
    requires op.entity == ReviewEntity && op.opType != Delete && op.fields.Some?
    requires op.entityId in t.reviews && t.reviews[op.entityId].tombstone == None
    ensures op.entityId in Step(t, op, newId).reviews
    ensures var review, obj := Step(t, op, newId).reviews[op.entityId], op.fields.value;
      && Step(t, op, newId).reviews == t.reviews[op.entityId := review]
      && review.bookId == t.reviews[op.entityId].bookId && review.tombstone == None
      && (if Content in obj && IsNewerFor(t, op, Content) then TextIs(review.content, obj, Content)
          else review.content == t.reviews[op.entityId].content)
      && (if Rating in obj && IsNewerFor(t, op, Rating) then NumberIs(review.rating, obj, Rating)
          else review.rating == t.reviews[op.entityId].rating)
  {
    ReviewEditStep(t, op, newId);
    EditedReview(t, op);
    ReviewWins(t, op, Content);
    ReviewWins(t, op, Rating);
    FieldReads(op.fields.value, Content);
    FieldReads(op.fields.value, Rating);
    hide Step, ReviewUpdate, Wins, TextField, IntField, TextIs, NumberIs, IsNewerFor;
  }

  /** A deletion marks a live note or review, with the op's clock and device, and nothing else. */
  lemma RemarkDeleted(t: Tables, op: Op, newId: Id)
    requires op.opType == Delete
    requires op.entity == NoteEntity || op.entity == ReviewEntity
    ensures Step(t, op, newId) ==
      if op.entity == NoteEntity && op.entityId in t.notes && t.notes[op.entityId].tombstone == None
      then t.(notes := t.notes[op.entityId := t.notes[op.entityId].(tombstone := Some(Tombstone(op.hlc, op.device)))])
      else if op.entity == ReviewEntity && op.entityId in t.reviews && t.reviews[op.entityId].tombstone == None
      then t.(reviews :=
                t.reviews[op.entityId := t.reviews[op.entityId].(tombstone := Some(Tombstone(op.hlc, op.device)))])
      else t
  {
    if op.entity == NoteEntity {
      NoteMerge(t, op, newId);
    } else {
      ReviewMerge(t, op, newId);
    }
    hide Merge, OnlyNote, OnlyReview;
  }
}
