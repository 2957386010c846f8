/** What the edit of a review reports, told from the JSON object it carries and the tables before. */
module RemarkOutcomes {
  import opened Wrappers
  import opened Library
  import opened MergeRules
  import opened StoredRows
  import opened StoredRemarks

  /** The two fields of a review as the op carries them. A value of the wrong type counts as none. */
  function CarriedContent(obj: Object): Cell
  {
    if IsText(obj, Content) then Str(obj[Content].text) else Nil
  }

  function CarriedRating(obj: Object): Cell
  {
    if IsNumber(obj, Rating) then Int(obj[Rating].number) else Nil
  }

  /** A conflict: the op carries the field, with another value than the stored one, which another device wrote. */
  function ConflictOf(t: Tables, op: Op, field: Key, local: Cell, remote: Cell): seq<(ConflictKey, Conflict)>
  {
    var ck := ClockKey(ReviewEntity, op.entityId, field);
    if op.fields.Some? && field in op.fields.value && remote != local && ck in t.clocks
      && t.clocks[ck].device != Some(op.device)
    then [(ConflictKey(ReviewEntity, op.entityId, field, op.hlc), Conflict(local, remote, t.clocks[ck].hlc))]
    else []
  }

  lemma ContentReported(t: Tables, op: Op, local: Cell)
    requires op.entity == ReviewEntity && op.fields.Some?
    ensures Report(MarksOf(t), op, Content, local) ==
      ConflictOf(t, op, Content, local, CarriedContent(op.fields.value))
  {
    FieldReads(op.fields.value, Content);
    hide TextField, IsText;
  }

  lemma RatingReported(t: Tables, op: Op, local: Cell, stars: Cell)
    requires op.entity == ReviewEntity && op.fields.Some?
    ensures Report(Settle(MarksOf(t), op, Content, local), op, Rating, stars) ==
      ConflictOf(t, op, Rating, stars, CarriedRating(op.fields.value))
  {
    FieldReads(op.fields.value, Rating);
    SettledElsewhere(MarksOf(t), op, local);
    hide IntField, IsNumber, Settle;
  }

  lemma SettledElsewhere(m: Marks, op: Op, local: Cell)
    requires op.entity == ReviewEntity && op.fields.Some?
    ensures var ck, n := FieldKey(op, Rating), Settle(m, op, Content, local);
      (ck in n.clocks <==> ck in m.clocks) && (ck in m.clocks ==> n.clocks[ck] == m.clocks[ck])
  {
    hide Wins, Collides, Report;
  }

  lemma ReviewMerges(t: Tables, op: Op, newId: Id)
    requires op.entity == ReviewEntity && op.opType != Delete && op.entityId in t.reviews
    ensures Merge(t, op, newId) == ReviewUpdate(t, op)
  {
    hide ReviewUpdate, OnlyReview;
  }

  lemma ReviewReport(t: Tables, op: Op)
    requires op.entity == ReviewEntity && op.fields.Some?
    requires op.entityId in t.reviews && t.reviews[op.entityId].tombstone == None
    ensures var m, review := MarksOf(t), t.reviews[op.entityId];
      var local, stars := TextCell(review.content), IntCell(review.rating);
      var report := Report(m, op, Content, local) + Report(Settle(m, op, Content, local), op, Rating, stars);
      ReviewUpdate(t, op).1 == if Wins(m, op, Content) || Wins(m, op, Rating) then Applied(report) else Skipped(report)
  {
    RatingWinsBeside(t, op, TextCell(t.reviews[op.entityId].content));
    hide Wins, Settle, Report, TextField, IntField, OnlyReview;
  }

  /** The edit of a live review is applied exactly when it carries a newer content or rating, and reports the conflicts
      of both, content first. */
  lemma ReviewEditOutcome(t: Tables, op: Op, newId: Id)
    requires op.entity == ReviewEntity && op.opType != Delete && op.fields.Some?
    requires op.entityId in t.reviews && t.reviews[op.entityId].tombstone == None
    ensures var obj, review := op.fields.value, t.reviews[op.entityId];
      var conflicts := ConflictOf(t, op, Content, TextCell(review.content), CarriedContent(obj))
        + ConflictOf(t, op, Rating, IntCell(review.rating), CarriedRating(obj));
      Merge(t, op, newId).1 ==
      if (Content in obj && IsNewerFor(t, op, Content)) || (Rating in obj && IsNewerFor(t, op, Rating))
      then Applied(conflicts) else Skipped(conflicts)
  {
    var review := t.reviews[op.entityId];
    ReviewMerges(t, op, newId);
    ReviewReport(t, op);
    ReviewWins(t, op, Content);
    ReviewWins(t, op, Rating);
    ContentReported(t, op, TextCell(review.content));
    RatingReported(t, op, TextCell(review.content), IntCell(review.rating));
    hide Merge, ReviewUpdate, Wins, Report, Settle, ConflictOf, CarriedContent, CarriedRating, IsNewerFor;
  }
}
