/** What applying an op reports, told from the JSON object it carries and the tables before. */
module Outcomes {
  import opened Wrappers
  import opened Text
  import opened Library
  import opened MergeRules
  import opened StoredRows
  import opened StoredRemarks

  /** A session create without an object is rejected, one without book or start fails, an id that is taken or a rating
      out of range is skipped, an unknown book fails. Sessions are not edited. */
  lemma SessionOutcome(t: Tables, op: Op, newId: Id)
    requires op.entity == SessionEntity
    ensures Merge(t, op, newId).1 ==
      if op.opType != Create then Skipped([])
      else if op.fields.None? then Rejected
      else if !IsText(op.fields.value, BookId) || !IsText(op.fields.value, StartedAt) then Failed
      else if op.entityId in t.sessions || !StarsFit(op.fields.value) then Skipped([])
      else if op.fields.value[BookId].text !in t.books then Failed
      else Applied([])
  {
    if op.fields.Some? {
      SessionRead(op.fields.value, op.createdAt);
      StarsRead(op.fields.value);
    }
    hide SessionOf, SessionHolds, StarsFit, IsStars, IntField, IsText;
  }

  /** For progress: no book, value or time fails, a value that is not above all of its kind is skipped. */
  lemma ProgressOutcome(t: Tables, op: Op, newId: Id)
    requires op.entity == ProgressEntity
    ensures Merge(t, op, newId).1 ==
      if op.opType != Create then Skipped([])
      else if op.fields.None? then Rejected
      else if !IsText(op.fields.value, BookId) || !IsNumber(op.fields.value, Value)
        || !IsText(op.fields.value, LoggedAt) then Failed
      else if op.entityId in t.progress || (exists id :: id in t.progress && SameKind(t.progress[id], op.fields.value)
                                              && op.fields.value[Value].number <= t.progress[id].value) then Skipped([])
      else if ProgressFits(t, op) then Applied([]) else Failed
  {
    if op.fields.Some? {
      var obj := op.fields.value;
      ProgressRead(obj, op.createdAt);
      ProgressFitsRow(t, op);
      var row := ProgressOf(obj, op.createdAt);
      if row.Some? {
        assert TextOr(row.value.progressType, obj, ProgressType, "page");
        KindReached(t.progress, row.value, obj);
      }
    }
    hide ProgressOf, ProgressHolds, ProgressFits, Reached, SameKind, TextField, IsText, IsNumber;
  }

  /** A tag without a name fails; adding one that is there, and removing one that is not, is skipped; a tag on an
      unknown book fails. */
  lemma TagOutcome(t: Tables, op: Op, newId: Id, k: TagKey)
    requires op.entity == TagEntity && !IsTagId(t.tags, newId)
    requires op.fields.Some? && IsText(op.fields.value, TagName) && IsTagNamed(k, op.fields.value)
    ensures Merge(t, op, newId).1 ==
      var linked := k in t.tags && (op.entityId, t.tags[k].id) in t.bookTags;
      match op.opType
      case Create =>
        if linked || (k !in t.tags && (op.entityId, newId) in t.bookTags) then Skipped([])
        else if op.entityId !in t.books then Failed else Applied([])
      case Update => Skipped([])
      case Delete => if linked then Applied([]) else Skipped([])
  {
    TagRead(op.fields.value, k);
    hide TagKeyOf, TextField, IsTagNamed, IsText, IsTagId;
  }

  /** A setting without key or value fails, one that is not newer is skipped, a second row for a key fails, and the
      deletion of one that is not there is skipped. */
  lemma SettingOutcome(t: Tables, op: Op, newId: Id)
    requires op.entity == SettingEntity
    ensures Merge(t, op, newId).1 ==
      if op.opType == Delete then (if op.entityId in t.settings then Applied([]) else Skipped([]))
      else if op.fields.None? then Rejected
      else if !IsPair(op) then Failed
      else if op.entityId in t.settings then
        (if t.settings[op.entityId].syncHlc.None? || Less(t.settings[op.entityId].syncHlc.value, op.hlc)
         then Applied([]) else Skipped([]))
      else if exists id :: id in t.settings && t.settings[id].key == op.fields.value[SettingKey].text then Failed
      else Applied([])
  {
    if op.fields.Some? {
      PairRead(op);
    }
    hide SettingOf, IsText;
  }

  /** Creating a note or review that is not there: no object is rejected, an unknown book fails. */
  lemma RemarkCreateOutcome(t: Tables, op: Op, newId: Id)
    requires op.opType == Create
    requires (op.entity == NoteEntity && op.entityId !in t.notes)
      || (op.entity == ReviewEntity && op.entityId !in t.reviews)
    ensures Merge(t, op, newId).1 ==
      if op.fields.None? then Rejected else if NamesKnownBook(t, op) then Applied([]) else Failed
  {
    if op.fields.Some? {
      FieldReads(op.fields.value, BookId);
    }
    hide NoteUpdate, ReviewUpdate, TextField, IntField, IsText;
  }

  /** The edit of a live note is applied exactly when it is newer, and reports a conflict exactly when its text differs
      from the stored one, which another device wrote last. */
  lemma NoteEditOutcome(t: Tables, op: Op, newId: Id)
    requires op.entity == NoteEntity && op.opType != Delete && op.fields.Some?
    requires op.entityId in t.notes && t.notes[op.entityId].tombstone == None
    ensures var ck := ClockKey(NoteEntity, op.entityId, Content);
      var text := if IsText(op.fields.value, Content) then op.fields.value[Content].text else "";
      var local := t.notes[op.entityId].content;
      var conflicts :=
        if text != local && ck in t.clocks && t.clocks[ck].device != Some(op.device)
        then [(ConflictKey(NoteEntity, op.entityId, Content, op.hlc),
               Conflict(Str(local), Str(text), t.clocks[ck].hlc))]
        else [];
      Merge(t, op, newId).1 == if IsNewerFor(t, op, Content) then Applied(conflicts) else Skipped(conflicts)
  {
    FieldReads(op.fields.value, Content);
    NoteMerge(t, op, newId);
    hide Merge, TextField, IsText, OnlyNote, Settle;
  }

  /** The deletion of a book, note or review is applied exactly when it is there and not deleted. */
  lemma DeletionOutcome(t: Tables, op: Op, newId: Id)
    requires op.opType == Delete
    ensures op.entity == BookEntity ==>
      Merge(t, op, newId).1 ==
        if op.entityId in t.books && t.books[op.entityId].tombstone == None then Applied([]) else Skipped([])
    ensures op.entity == NoteEntity ==>
      Merge(t, op, newId).1 ==
        if op.entityId in t.notes && t.notes[op.entityId].tombstone == None then Applied([]) else Skipped([])
    ensures op.entity == ReviewEntity ==>
      Merge(t, op, newId).1 ==
        if op.entityId in t.reviews && t.reviews[op.entityId].tombstone == None then Applied([]) else Skipped([])
  {
    hide OnlyBook, OnlyNote, OnlyReview;
  }

  /** Creating a book that is not there: no object is rejected, a rating out of range fails. */
  lemma BookCreateOutcome(t: Tables, op: Op, newId: Id)
    requires op.entity == BookEntity && op.opType == Create && op.entityId !in t.books
    ensures Merge(t, op, newId).1 ==
      if op.fields.None? then Rejected else if StarsFit(op.fields.value) then Applied([]) else Failed
  {
    if op.fields.Some? {
      StarsRead(op.fields.value);
    }
    hide NewBook, BookUpdate, IsStars, StarsFit, IntField, IntCell, OnlyBook;
  }
}
