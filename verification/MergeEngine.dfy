/** The merge engine: applies remote ops to the tables in place, one rule per entity type. */
module MergeEngines {
  import opened Wrappers
  import opened Text
  import opened Statuses
  import opened Library
  import opened MergeRules
  import opened Database

  class MergeEngine {
    const db: Database

    constructor (db: Database)
      ensures this.db == db
    {
      this.db := db;
    }

    /** Applies one op. `newId` stands for the UUID generated for a tag that does not exist yet. */
    method ApplyOp(op: Op, newId: Id) returns (outcome: Outcome)
      modifies db
      ensures (db.State(), outcome) == Merge(old(db.State()), op, newId)
    {
      match op.entity
      case BookEntity =>
        match op.opType {
          case Create => outcome := MergeBookCreate(op);
          case Update => outcome := MergeBookUpdate(op);
          case Delete => outcome := MergeBookDelete(op);
        }
      case SessionEntity =>
        if op.opType.Create? { outcome := MergeSessionCreate(op); } else { outcome := SKIPPED; }
      case ProgressEntity =>
        if op.opType.Create? { outcome := MergeProgressCreate(op); } else { outcome := SKIPPED; }
      case TagEntity =>
        match op.opType {
          case Create => outcome := MergeTagCreate(op, newId);
          case Delete => outcome := MergeTagDelete(op);
          case Update => outcome := SKIPPED;
        }
      case NoteEntity =>
        match op.opType {
          case Create => outcome := MergeNoteCreate(op);
          case Update => outcome := MergeNoteUpdate(op);
          case Delete => outcome := MergeNoteDelete(op);
        }
      case ReviewEntity =>
        match op.opType {
          case Create => outcome := MergeReviewCreate(op);
          case Update => outcome := MergeReviewUpdate(op);
          case Delete => outcome := MergeReviewDelete(op);
        }
      case SettingEntity =>
        if op.opType.Delete? { outcome := MergeSettingDelete(op); } else { outcome := MergeSettingUpsert(op); }
      case DeviceEntity =>
        outcome := SKIPPED;
    }

    // --- Books ---

    method MergeBookCreate(op: Op) returns (outcome: Outcome)
      modifies db
      ensures (db.State(), outcome) == BookCreate(old(db.State()), op)
    {
      if op.entityId in db.books {
        outcome := MergeBookUpdate(op);
        return;
      }
      if op.fields.None? {
        return Rejected;
      }
      if !IsStars(NewCell(op.fields.value, Rating)) {
        return Failed;
      }
      var clocks: map<Key, Option<string>> := map[];
      for i := 0 to |BOOK_FIELDS|
        invariant clocks == map k | k in op.fields.value && k in BOOK_FIELDS[..i] :: Some(op.hlc)
      {
        assert BOOK_FIELDS[..i + 1] == BOOK_FIELDS[..i] + [BOOK_FIELDS[i]];
        if BOOK_FIELDS[i] in op.fields.value {
          clocks := clocks[BOOK_FIELDS[i] := Some(op.hlc)];
        }
      }
      BookFieldsAreDistinct();
      assert BOOK_FIELDS[..|BOOK_FIELDS|] == BOOK_FIELDS;
      assert clocks == NewClocks(op.fields.value, op.hlc);
      db.books := db.books[op.entityId := Book(NewCells(op.fields.value), clocks, None)];
      outcome := APPLIED;
    }

    method MergeBookUpdate(op: Op) returns (outcome: Outcome)
      modifies db
      ensures (db.State(), outcome) == BookUpdate(old(db.State()), op)
    {
      if op.entityId !in db.books {
        return SKIPPED;
      }
      if db.books[op.entityId].tombstone.Some? {
        return SKIPPED;
      }
      if op.fields.None? {
        return SKIPPED;
      }
      var halt, appliedAny := MergeBookFields(op, BOOK_FIELDS);
      outcome :=
        if halt == Refused then Rejected else if halt == Broke then Failed else if appliedAny then APPLIED else SKIPPED;
    }

    /** The field loop of an update. A refused status or a violated constraint ends it at once and
        leaves the fields before it applied. */
    method MergeBookFields(op: Op, fieldNames: seq<Key>) returns (halt: Halt, appliedAny: bool)
      requires op.entityId in db.books && op.fields.Some?
      modifies db`books
      ensures op.entityId in db.books && db.books == old(db.books)[op.entityId := db.books[op.entityId]]
      ensures Walk(db.books[op.entityId], appliedAny, halt) ==
              VisitAll(Walk(old(db.books)[op.entityId], false, Going), fieldNames, op.fields.value, op.hlc)
    {
      hide Storable, StatusVerdict, ToCell;
      var obj := op.fields.value;
      halt, appliedAny := Going, false;
      ghost var start := Walk(db.books[op.entityId], false, Going);
      assert fieldNames[0..] == fieldNames;
      for i := 0 to |fieldNames|
        invariant op.entityId in db.books && db.books == old(db.books)[op.entityId := db.books[op.entityId]]
        invariant halt == Going
        invariant VisitAll(start, fieldNames, obj, op.hlc) ==
                  VisitAll(Walk(db.books[op.entityId], appliedAny, Going), fieldNames[i..], obj, op.hlc)
      {
        var fieldName := fieldNames[i];
        var book := db.books[op.entityId];
        ghost var w := Visit(Walk(book, appliedAny, Going), fieldName, obj, op.hlc);
        VisitNext(Walk(book, appliedAny, Going), fieldNames, i, obj, op.hlc);
        if fieldName !in obj {
          continue;
        }
        var localHlc := ClockOf(book, fieldName);
        if localHlc.Some? && !Less(localHlc.value, op.hlc) {
          continue;
        }
        var verdict := Pass;
        if fieldName == Status && obj[fieldName].JStr? {
          verdict := ValidateStatusTransition(op.entityId, obj[fieldName].text);
        }
        if verdict == Refuse {
          VisitHalted(w, fieldNames[i + 1..], obj, op.hlc);
          return Refused, appliedAny;
        }
        var cell := ToCell(fieldName, obj[fieldName]);
        if verdict == Broken || !Storable(fieldName, cell) {
          VisitHalted(w, fieldNames[i + 1..], obj, op.hlc);
          return Broke, appliedAny;
        }
        db.books := db.books[op.entityId := book.(cells := book.cells[fieldName := cell],
                                                  clocks := book.clocks[fieldName := Some(op.hlc)])];
        appliedAny := true;
      }
    }

    method MergeBookDelete(op: Op) returns (outcome: Outcome)
      modifies db
      ensures (db.State(), outcome) == BookDelete(old(db.State()), op)
    {
      if op.entityId in db.books && db.books[op.entityId].tombstone.None? {
        db.books := db.books[op.entityId := db.books[op.entityId].(tombstone := Some(Tombstone(op.hlc, op.device)))];
        outcome := APPLIED;
      } else {
        outcome := SKIPPED;
      }
    }

    /** Whether a status change is legal for the book as stored. */
    method ValidateStatusTransition(bookId: Id, newStatus: string) returns (verdict: Verdict)
      requires bookId in db.books
      ensures verdict == StatusVerdict(CellOf(db.books[bookId], Status), newStatus)
    {
      var cell := CellOf(db.books[bookId], Status);
      if !cell.Str? {
        return Broken;
      }
      var current := ParseStatus(cell.text);
      if current.None? {
        return Broken;
      }
      var target := ParseStatus(newStatus);
      if target.None? {
        return Refuse;
      }
      verdict := if current == target || CanTransition(current.value, target.value) then Pass else Refuse;
    }

    // --- Sessions and progress ---

    method MergeSessionCreate(op: Op) returns (outcome: Outcome)
      modifies db
      ensures (db.State(), outcome) == SessionCreate(old(db.State()), op)
    {
      if op.fields.None? {
        return Rejected;
      }
      var obj := op.fields.value;
      var book := TextField(obj, BookId);
      if book.None? {
        return Failed;
      }
      var started := TextField(obj, StartedAt);
      if started.None? {
        return Failed;
      }
      var rating := IntField(obj, Rating);
      if op.entityId in db.sessions || !IsStars(IntCell(rating)) {
        return SKIPPED;
      }
      if book.value !in db.books {
        return Failed;
      }
      db.sessions := db.sessions[op.entityId :=
        Session(book.value, started.value, TextField(obj, FinishedAt), IntField(obj, StartPage), IntField(obj, EndPage),
                rating, TextField(obj, Notes), op.createdAt)];
      outcome := APPLIED;
    }

    method MergeProgressCreate(op: Op) returns (outcome: Outcome)
      modifies db
      ensures (db.State(), outcome) == ProgressCreate(old(db.State()), op)
    {
      if op.fields.None? {
        return Rejected;
      }
      var obj := op.fields.value;
      var book := TextField(obj, BookId);
      if book.None? {
        return Failed;
      }
      var kind := GetOr(TextField(obj, ProgressType), "page");
      var value := IntField(obj, Value);
      if value.None? {
        return Failed;
      }
      var session := TextField(obj, SessionId);
      var logged := TextField(obj, LoggedAt);
      if logged.None? {
        return Failed;
      }
      if Reached(db.progress, book.value, kind, value.value) {
        return SKIPPED;
      }
      if op.entityId in db.progress {
        return SKIPPED;
      }
      if book.value !in db.books || (session.Some? && session.value !in db.sessions) {
        return Failed;
      }
      db.progress := db.progress[op.entityId :=
        Progress(book.value, session, kind, value.value, TextField(obj, NoteText), logged.value, op.createdAt)];
      outcome := APPLIED;
    }

    // --- Tags ---

    method MergeTagCreate(op: Op, newId: Id) returns (outcome: Outcome)
      modifies db
      ensures (db.State(), outcome) == TagCreate(old(db.State()), op, newId)
    {
      if op.fields.None? {
        return Rejected;
      }
      var key := TagKeyOf(op.fields.value);
      if key.None? {
        return Failed;
      }
      if key.value !in db.tags && !IsTagId(db.tags, newId) {
        db.tags := db.tags[key.value := Tag(newId, TextField(op.fields.value, TagName).value)];
      }
      if key.value !in db.tags {
        return Failed;
      }
      var link := (op.entityId, db.tags[key.value].id);
      if link in db.bookTags {
        return SKIPPED;
      }
      if op.entityId !in db.books {
        return Failed;
      }
      db.bookTags := db.bookTags + {link};
      outcome := APPLIED;
    }

    method MergeTagDelete(op: Op) returns (outcome: Outcome)
      modifies db
      ensures (db.State(), outcome) == TagDelete(old(db.State()), op)
    {
      if op.fields.None? {
        return Rejected;
      }
      var key := TagKeyOf(op.fields.value);
      if key.None? {
        return Failed;
      }
      if key.value !in db.tags {
        return SKIPPED;
      }
      var link := (op.entityId, db.tags[key.value].id);
      if link !in db.bookTags {
        return SKIPPED;
      }
      db.bookTags := db.bookTags - {link};
      outcome := APPLIED;
    }

    // --- Notes ---

    method MergeNoteCreate(op: Op) returns (outcome: Outcome)
      requires op.entity == NoteEntity
      modifies db
      ensures (db.State(), outcome) == NoteCreate(old(db.State()), op)
    {
      if op.entityId in db.notes {
        outcome := MergeNoteUpdate(op);
        return;
      }
      if op.fields.None? {
        return Rejected;
      }
      var book := TextField(op.fields.value, BookId);
      if book.None? || book.value !in db.books {
        return Failed;
      }
      db.notes := db.notes[op.entityId := Note(book.value, GetOr(TextField(op.fields.value, Content), ""), None)];
      outcome := APPLIED;
    }

    method MergeNoteUpdate(op: Op) returns (outcome: Outcome)
      requires op.entity == NoteEntity
      modifies db
      ensures (db.State(), outcome) == NoteUpdate(old(db.State()), op)
    {
      if op.entityId !in db.notes || db.notes[op.entityId].tombstone.Some? || op.fields.None? {
        return SKIPPED;
      }
      outcome := MergeNoteContent(op);
    }

    /** The content field of a note update. */
    method MergeNoteContent(op: Op) returns (outcome: Outcome)
      requires op.entity == NoteEntity && op.entityId in db.notes && op.fields.Some?
      modifies db`notes, db`clocks, db`conflicts
      ensures var note, m := old(db.notes[op.entityId]), old(MarksOf(db.State()));
        var wins, report := Wins(m, op, Content), Report(m, op, Content, Str(note.content));
        && outcome == (if wins then Applied(report) else Skipped(report))
        && MarksOf(db.State()) == Settle(m, op, Content, Str(note.content))
        && db.notes == old(db.notes)[op.entityId :=
             note.(content := if wins then GetOr(TextField(op.fields.value, Content), "") else note.content)]
    {
      hide TextField, Less, Delivered, Wins, Collides;
      NoteTests(MarksOf(db.State()), op, db.notes[op.entityId].content);
      var note := db.notes[op.entityId];
      var content := GetOr(TextField(op.fields.value, Content), "");
      var ck := FieldKey(op, Content);
      var isConflict := ck in db.clocks && db.clocks[ck].device != Some(op.device) && note.content != content;
      if ck in db.clocks && !Less(db.clocks[ck].hlc, op.hlc) {
        assert db.notes == db.notes[op.entityId := note];
        if isConflict {
          var conflict := StoreConflict(op, Content, Str(note.content), Str(content), db.clocks[ck].hlc);
          return Skipped([conflict]);
        }
        return SKIPPED;
      }
      var localHlc := if ck in db.clocks then db.clocks[ck].hlc else "";
      db.notes := db.notes[op.entityId := note.(content := content)];
      UpsertEntityHlc(ck, op.hlc, op.device);
      if isConflict {
        var conflict := StoreConflict(op, Content, Str(note.content), Str(content), localHlc);
        return Applied([conflict]);
      }
      outcome := APPLIED;
    }

    method MergeNoteDelete(op: Op) returns (outcome: Outcome)
      modifies db
      ensures (db.State(), outcome) == NoteDelete(old(db.State()), op)
    {
      if op.entityId in db.notes && db.notes[op.entityId].tombstone.None? {
        db.notes := db.notes[op.entityId := db.notes[op.entityId].(tombstone := Some(Tombstone(op.hlc, op.device)))];
        outcome := APPLIED;
      } else {
        outcome := SKIPPED;
      }
    }

    // --- Reviews ---

    method MergeReviewCreate(op: Op) returns (outcome: Outcome)
      requires op.entity == ReviewEntity
      modifies db
      ensures (db.State(), outcome) == ReviewCreate(old(db.State()), op)
    {
      if op.entityId in db.reviews {
        outcome := MergeReviewUpdate(op);
        return;
      }
      if op.fields.None? {
        return Rejected;
      }
      var book := TextField(op.fields.value, BookId);
      if book.None? || book.value !in db.books {
        return Failed;
      }
      db.reviews := db.reviews[op.entityId :=
        Review(book.value, TextField(op.fields.value, Content), IntField(op.fields.value, Rating), None)];
      outcome := APPLIED;
    }

    method MergeReviewUpdate(op: Op) returns (outcome: Outcome)
      requires op.entity == ReviewEntity
      modifies db
      ensures (db.State(), outcome) == ReviewUpdate(old(db.State()), op)
    {
      if op.entityId !in db.reviews || db.reviews[op.entityId].tombstone.Some? || op.fields.None? {
        return SKIPPED;
      }
      outcome := MergeReviewFields(op);
    }

    method MergeReviewFields(op: Op) returns (outcome: Outcome)
      requires op.entity == ReviewEntity && op.entityId in db.reviews && db.reviews[op.entityId].tombstone.None?
      requires op.fields.Some?
      modifies db
      ensures (db.State(), outcome) == ReviewUpdate(old(db.State()), op)
    {
      hide ReviewUpdate, Settle, Wins, Report, TextField, IntField, TextCell, IntCell;
      ghost var t := db.State();
      var appliedAny, conflicts := MergeReviewContent(op);
      var applied, stored := MergeReviewRating(op);
      assert db.reviews == t.reviews[op.entityId := db.reviews[op.entityId]];
      ReviewUpdateUnfolds(t, op, db.reviews[op.entityId], MarksOf(db.State()), appliedAny, applied, conflicts, stored);
      appliedAny, conflicts := appliedAny || applied, conflicts + stored;
      outcome := if appliedAny then Applied(conflicts) else Skipped(conflicts);
    }

    /** The content field of a review update; an op without it changes nothing. */
    method MergeReviewContent(op: Op) returns (applied: bool, stored: seq<(ConflictKey, Conflict)>)
      requires op.entity == ReviewEntity && op.entityId in db.reviews && op.fields.Some?
      modifies db`reviews, db`clocks, db`conflicts
      ensures var review, m := old(db.reviews[op.entityId]), old(MarksOf(db.State()));
        && applied == Wins(m, op, Content) && stored == Report(m, op, Content, TextCell(review.content))
        && MarksOf(db.State()) == Settle(m, op, Content, TextCell(review.content))
        && db.reviews == old(db.reviews)[op.entityId :=
             review.(content := if applied then TextField(op.fields.value, Content) else review.content)]
    {
      var review := db.reviews[op.entityId];
      applied, stored := false, [];
      assert db.reviews == db.reviews[op.entityId := review];
      if Content in op.fields.value {
        var incoming := TextField(op.fields.value, Content);
        var ck := FieldKey(op, Content);
        var isConflict := ck in db.clocks && db.clocks[ck].device != Some(op.device) && review.content != incoming;
        var localHlc := if ck in db.clocks then db.clocks[ck].hlc else "";
        applied := ck !in db.clocks || Less(db.clocks[ck].hlc, op.hlc);
        if applied {
          db.reviews := db.reviews[op.entityId := review.(content := incoming)];
          UpsertEntityHlc(ck, op.hlc, op.device);
        }
        if isConflict {
          var conflict := StoreConflict(op, Content, TextCell(review.content), TextCell(incoming), localHlc);
          stored := [conflict];
        }
      }
    }

    /** The rating field of a review update. */
    method MergeReviewRating(op: Op) returns (applied: bool, stored: seq<(ConflictKey, Conflict)>)
      requires op.entity == ReviewEntity && op.entityId in db.reviews && op.fields.Some?
      modifies db`reviews, db`clocks, db`conflicts
      ensures var review, m := old(db.reviews[op.entityId]), old(MarksOf(db.State()));
        && applied == Wins(m, op, Rating) && stored == Report(m, op, Rating, IntCell(review.rating))
        && MarksOf(db.State()) == Settle(m, op, Rating, IntCell(review.rating))
        && db.reviews == old(db.reviews)[op.entityId :=
             review.(rating := if applied then IntField(op.fields.value, Rating) else review.rating)]
    {
      var review := db.reviews[op.entityId];
      applied, stored := false, [];
      assert db.reviews == db.reviews[op.entityId := review];
      if Rating in op.fields.value {
        var incoming := IntField(op.fields.value, Rating);
        var ck := FieldKey(op, Rating);
        var isConflict := ck in db.clocks && db.clocks[ck].device != Some(op.device) && review.rating != incoming;
        var localHlc := if ck in db.clocks then db.clocks[ck].hlc else "";
        applied := ck !in db.clocks || Less(db.clocks[ck].hlc, op.hlc);
        if applied {
          db.reviews := db.reviews[op.entityId := review.(rating := incoming)];
          UpsertEntityHlc(ck, op.hlc, op.device);
        }
        if isConflict {
          var conflict := StoreConflict(op, Rating, IntCell(review.rating), IntCell(incoming), localHlc);
          stored := [conflict];
        }
      }
    }

    method MergeReviewDelete(op: Op) returns (outcome: Outcome)
      modifies db
      ensures (db.State(), outcome) == ReviewDelete(old(db.State()), op)
    {
      if op.entityId in db.reviews && db.reviews[op.entityId].tombstone.None? {
        db.reviews :=
          db.reviews[op.entityId := db.reviews[op.entityId].(tombstone := Some(Tombstone(op.hlc, op.device)))];
        outcome := APPLIED;
      } else {
        outcome := SKIPPED;
      }
    }

    // --- Settings ---

    method MergeSettingUpsert(op: Op) returns (outcome: Outcome)
      modifies db
      ensures (db.State(), outcome) == SettingUpsert(old(db.State()), op)
    {
      if op.fields.None? {
        return Rejected;
      }
      var key := TextField(op.fields.value, SettingKey);
      if key.None? {
        return Failed;
      }
      var value := TextField(op.fields.value, Value);
      if value.None? {
        return Failed;
      }
      if op.entityId in db.settings {
        var existing := db.settings[op.entityId];
        if existing.syncHlc.Some? && !Less(existing.syncHlc.value, op.hlc) {
          return SKIPPED;
        }
        db.settings := db.settings[op.entityId := existing.(value := value.value, syncHlc := Some(op.hlc))];
      } else {
        if KeyTaken(db.settings, key.value) {
          return Failed;
        }
        db.settings := db.settings[op.entityId := Setting(key.value, value.value, Some(op.hlc))];
      }
      outcome := APPLIED;
    }

    method MergeSettingDelete(op: Op) returns (outcome: Outcome)
      modifies db
      ensures (db.State(), outcome) == SettingDelete(old(db.State()), op)
    {
      if op.entityId in db.settings {
        db.settings := db.settings - {op.entityId};
        outcome := APPLIED;
      } else {
        outcome := SKIPPED;
      }
    }

    // --- Helpers ---

    /** Inserts the clock row, or advances it when the new clock is greater. */
    method UpsertEntityHlc(ck: ClockKey, hlc: string, device: Id)
      modifies db`clocks
      ensures db.clocks == if ck !in old(db.clocks) || Less(old(db.clocks)[ck].hlc, hlc)
                           then old(db.clocks)[ck := FieldClock(hlc, Some(device))] else old(db.clocks)
    {
      if ck !in db.clocks || Less(db.clocks[ck].hlc, hlc) {
        db.clocks := db.clocks[ck := FieldClock(hlc, Some(device))];
      }
    }

    /** Adds a ledger row unless one with its key exists. */
    method StoreConflict(op: Op, field: Key, local: Cell, remote: Cell, localHlc: string)
      returns (row: (ConflictKey, Conflict))
      modifies db`conflicts
      ensures row == (LedgerKey(op, field), Conflict(local, remote, localHlc))
      ensures db.conflicts == if row.0 in old(db.conflicts) then old(db.conflicts)
        else old(db.conflicts)[row.0 := row.1]
    {
      row := (LedgerKey(op, field), Conflict(local, remote, localHlc));
      if row.0 !in db.conflicts {
        db.conflicts := db.conflicts[row.0 := row.1];
      }
    }
  }

  /** A review update is its two field rules, one after the other. */
  lemma ReviewUpdateUnfolds(t: Tables, op: Op, after: Review, m2: Marks, wins1: bool, wins2: bool,
                            report1: seq<(ConflictKey, Conflict)>, report2: seq<(ConflictKey, Conflict)>)
    requires op.entity == ReviewEntity && op.entityId in t.reviews && t.reviews[op.entityId].tombstone.None?
    requires op.fields.Some?
    requires var review := t.reviews[op.entityId];
      var m1 := Settle(MarksOf(t), op, Content, TextCell(review.content));
      && wins1 == Wins(MarksOf(t), op, Content) && report1 == Report(MarksOf(t), op, Content, TextCell(review.content))
      && wins2 == Wins(m1, op, Rating) && report2 == Report(m1, op, Rating, IntCell(review.rating))
      && m2 == Settle(m1, op, Rating, IntCell(review.rating))
      && after == review.(content := if wins1 then TextField(op.fields.value, Content) else review.content,
                          rating := if wins2 then IntField(op.fields.value, Rating) else review.rating)
    ensures ReviewUpdate(t, op) ==
      (t.(reviews := t.reviews[op.entityId := after], clocks := m2.clocks, conflicts := m2.conflicts),
       if wins1 || wins2 then Applied(report1 + report2) else Skipped(report1 + report2))
  {
    hide Settle, Wins, Report, TextField, IntField, TextCell, IntCell;
  }

  /** The tests of a note update, as the rules state them. */
  lemma NoteTests(m: Marks, op: Op, local: string)
    requires op.entity == NoteEntity && op.fields.Some?
    ensures Delivered(op, Content) == Some(Str(GetOr(TextField(op.fields.value, Content), "")))
    ensures Wins(m, op, Content) <==> Newer(op.hlc, ClockIn(m.clocks, FieldKey(op, Content)))
    ensures Collides(m, op, Content, Str(local)) <==>
      FieldKey(op, Content) in m.clocks && m.clocks[FieldKey(op, Content)].device != Some(op.device) &&
      local != GetOr(TextField(op.fields.value, Content), "")
  {
    hide TextField, Newer;
  }

  lemma VisitNext(w: Walk, ks: seq<Key>, i: nat, obj: Object, hlc: string)
    requires i < |ks|
    ensures VisitAll(w, ks[i..], obj, hlc) == VisitAll(Visit(w, ks[i], obj, hlc), ks[i + 1..], obj, hlc)
  {
    assert ks[i..][0] == ks[i] && ks[i..][1..] == ks[i + 1..];
  }

  /** Nothing is visited after a field has ended the walk. */
  lemma {:induction false} VisitHalted(w: Walk, ks: seq<Key>, obj: Object, hlc: string)
    requires w.halt != Going
    ensures VisitAll(w, ks, obj, hlc) == w
  {
    if ks != [] {
      VisitHalted(w, ks[1..], obj, hlc);
    }
  }
}
