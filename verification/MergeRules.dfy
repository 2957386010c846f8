/** The merge rules as functions on tables. `MergeEngine` runs them step by step. */
module MergeRules {
  import opened Wrappers
  import opened Text
  import opened Statuses
  import opened Library

  const APPLIED: Outcome := Applied([])
  const SKIPPED: Outcome := Skipped([])

  /** The last-write-wins test: there is no clock yet, or it is strictly older. */
  predicate Newer(hlc: string, local: Option<string>)
  {
    local.None? || Less(local.value, hlc)
  }

  // ---------------------------------------------------------------------------
  // What an op can touch
  // ---------------------------------------------------------------------------

  ghost predicate SameExcept<K(!new), V>(a: map<K, V>, b: map<K, V>, key: K)
  {
    forall k :: k != key ==> (k in a <==> k in b) && (k in a ==> a[k] == b[k])
  }

  ghost predicate OnlyBook(t: Tables, u: Tables, id: Id)
  {
    u == t.(books := u.books) && SameExcept(t.books, u.books, id) && (id in t.books ==> id in u.books)
  }

  /** One note, the clocks of its fields, and the ledger. */
  ghost predicate OnlyNote(t: Tables, u: Tables, op: Op)
  {
    && u == t.(notes := u.notes, clocks := u.clocks, conflicts := u.conflicts)
    && SameExcept(t.notes, u.notes, op.entityId) && (op.entityId in t.notes ==> op.entityId in u.notes)
    && (op.entityId in u.notes ==>
        u.notes[op.entityId].bookId in t.books ||
        (op.entityId in t.notes && u.notes[op.entityId].bookId == t.notes[op.entityId].bookId))
    && SameClocksElsewhere(t, u, op)
  }

  ghost predicate OnlyReview(t: Tables, u: Tables, op: Op)
  {
    && u == t.(reviews := u.reviews, clocks := u.clocks, conflicts := u.conflicts)
    && SameExcept(t.reviews, u.reviews, op.entityId) && (op.entityId in t.reviews ==> op.entityId in u.reviews)
    && (op.entityId in u.reviews ==>
        u.reviews[op.entityId].bookId in t.books ||
        (op.entityId in t.reviews && u.reviews[op.entityId].bookId == t.reviews[op.entityId].bookId))
    && SameClocksElsewhere(t, u, op)
  }

  ghost predicate SameClocksElsewhere(t: Tables, u: Tables, op: Op)
  {
    forall ck: ClockKey :: (ck.entity, ck.id) != (op.entity, op.entityId) ==>
      (ck in t.clocks <==> ck in u.clocks) && (ck in t.clocks ==> t.clocks[ck] == u.clocks[ck])
  }

  ghost predicate OnlySetting(t: Tables, u: Tables, id: Id)
  {
    && u == t.(settings := u.settings) && SameExcept(t.settings, u.settings, id)
    && (id in u.settings ==>
        !KeyTaken(t.settings, u.settings[id].key) ||
        (id in t.settings && u.settings[id].key == t.settings[id].key))
  }

  ghost predicate OnlyFacts(t: Tables, u: Tables)
  {
    u == t.(sessions := u.sessions, progress := u.progress, tags := u.tags, bookTags := u.bookTags)
  }

  // ---------------------------------------------------------------------------
  // Books: last write wins, field by field
  // ---------------------------------------------------------------------------

  datatype Verdict = Pass | Refuse | Broken

  function StatusVerdict(current: Cell, target: string): Verdict
  {
    if !current.Str? then Broken else
    match (ParseStatus(current.text), ParseStatus(target))
    case (None, _) => Broken
    case (_, None) => Refuse
    case (Some(c), Some(t)) => if c == t || CanTransition(c, t) then Pass else Refuse
  }

  datatype Halt = Going | Refused | Broke

  /** A walk over the fields of an update: the book so far, whether anything was written, and
      whether a field has ended the walk. */
  datatype Walk = Walk(book: Book, wrote: bool, halt: Halt)

  function Visit(w: Walk, k: Key, obj: Object, hlc: string): Walk
  {
    if w.halt != Going || k !in obj || !Newer(hlc, ClockOf(w.book, k)) then w else
    var verdict := if k == Status && obj[k].JStr? then StatusVerdict(CellOf(w.book, Status), obj[k].text) else Pass;
    if verdict == Refuse then w.(halt := Refused)
    else if verdict == Broken || !Storable(k, ToCell(k, obj[k])) then w.(halt := Broke)
    else Walk(w.book.(cells := w.book.cells[k := ToCell(k, obj[k])], clocks := w.book.clocks[k := Some(hlc)]), true,
              Going)
  }

  function VisitAll(w: Walk, ks: seq<Key>, obj: Object, hlc: string): Walk
    decreases |ks|
  {
    if ks == [] then w else VisitAll(Visit(w, ks[0], obj, hlc), ks[1..], obj, hlc)
  }

  function BookUpdate(t: Tables, op: Op): (r: (Tables, Outcome))
    ensures OnlyBook(t, r.0, op.entityId)
  {
    hide VisitAll;
    if op.entityId !in t.books || t.books[op.entityId].tombstone.Some? || op.fields.None? then (t, SKIPPED) else
    var w := VisitAll(Walk(t.books[op.entityId], false, Going), BOOK_FIELDS, op.fields.value, op.hlc);
    (t.(books := t.books[op.entityId := w.book]),
     if w.halt == Refused then Rejected else if w.halt == Broke then Failed else if w.wrote then APPLIED else SKIPPED)
  }

  /** A column of a new book: what the op carries, or the default. */
  function NewCell(obj: Object, k: Key): Cell
  {
    match k
    case Title => Str(GetOr(TextField(obj, Title), "Untitled"))
    case Format => Str(GetOr(TextField(obj, Format), "physical"))
    case Status => Str(GetOr(TextField(obj, Status), "want-to-read"))
    case _ => if IsIntegerColumn(k) then IntCell(IntField(obj, k)) else TextCell(TextField(obj, k))
  }

  function NewCells(obj: Object): map<Key, Cell>
  {
    map k | k in BOOK_FIELDS :: NewCell(obj, k)
  }

  function NewClocks(obj: Object, hlc: string): map<Key, Option<string>>
  {
    map k | k in obj && IsBookField(k) :: Some(hlc)
  }

  function NewBook(obj: Object, hlc: string): Book
  {
    Book(NewCells(obj), NewClocks(obj, hlc), None)
  }

  function BookCreate(t: Tables, op: Op): (r: (Tables, Outcome))
    ensures OnlyBook(t, r.0, op.entityId)
  {
    if op.entityId in t.books then BookUpdate(t, op)
    else if op.fields.None? then (t, Rejected)
    else if !IsStars(NewCell(op.fields.value, Rating)) then (t, Failed)
    else (t.(books := t.books[op.entityId := NewBook(op.fields.value, op.hlc)]), APPLIED)
  }

  function BookDelete(t: Tables, op: Op): (r: (Tables, Outcome))
    ensures OnlyBook(t, r.0, op.entityId)
  {
    hide VisitAll;
    if op.entityId !in t.books || t.books[op.entityId].tombstone.Some? then (t, SKIPPED)
    else (t.(books := t.books[op.entityId := t.books[op.entityId].(tombstone := Some(Tombstone(op.hlc, op.device)))]),
          APPLIED)
  }

  /** A stored book after an update, and after a deletion. */
  function UpdatedBook(b: Book, op: Op): Book
  {
    if b.tombstone.Some? || op.fields.None? then b
    else VisitAll(Walk(b, false, Going), BOOK_FIELDS, op.fields.value, op.hlc).book
  }

  function DeletedBook(b: Book, op: Op): Book
  {
    if b.tombstone.Some? then b else b.(tombstone := Some(Tombstone(op.hlc, op.device)))
  }

  lemma UpdatedBooks(t: Tables, op: Op)
    ensures BookUpdate(t, op).0.books ==
      if op.entityId in t.books then t.books[op.entityId := UpdatedBook(t.books[op.entityId], op)] else t.books
  {
    hide VisitAll, OnlyBook;
    if op.entityId in t.books {
      assert t.books[op.entityId := t.books[op.entityId]] == t.books;
    }
  }

  lemma DeletedBooks(t: Tables, op: Op)
    ensures BookDelete(t, op).0.books ==
      if op.entityId in t.books then t.books[op.entityId := DeletedBook(t.books[op.entityId], op)] else t.books
  {
    hide OnlyBook;
    if op.entityId in t.books {
      assert t.books[op.entityId := t.books[op.entityId]] == t.books;
    }
  }

  /** The books after a create: an update of a book that is there, or a new one. */
  lemma CreatedBooks(t: Tables, op: Op)
    ensures BookCreate(t, op).0.books ==
      if op.entityId in t.books then BookUpdate(t, op).0.books
      else if op.fields.Some? && IsStars(NewCell(op.fields.value, Rating))
      then t.books[op.entityId := NewBook(op.fields.value, op.hlc)] else t.books
  {
    hide BookUpdate, NewBook, NewCell, IsStars, OnlyBook;
  }

  // ---------------------------------------------------------------------------
  // Sessions: append-only. Progress: monotonic
  // ---------------------------------------------------------------------------

  /** The session an op describes, if it names a book and a start. */
  function SessionOf(obj: Object, createdAt: string): Option<Session>
  {
    match (TextField(obj, BookId), TextField(obj, StartedAt))
    case (Some(book), Some(started)) =>
      Some(Session(book, started, TextField(obj, FinishedAt), IntField(obj, StartPage), IntField(obj, EndPage),
                   IntField(obj, Rating), TextField(obj, Notes), createdAt))
    case _ => None
  }

  function SessionCreate(t: Tables, op: Op): (r: (Tables, Outcome))
    ensures r.0 == t.(sessions := r.0.sessions)
  {
    if op.fields.None? then (t, Rejected) else
    var row := SessionOf(op.fields.value, op.createdAt);
    if row.None? then (t, Failed)
    else if op.entityId in t.sessions || !IsStars(IntCell(row.value.rating)) then (t, SKIPPED)
    else if row.value.bookId !in t.books then (t, Failed)
    else (t.(sessions := t.sessions[op.entityId := row.value]), APPLIED)
  }

  /** Some entry of the book and type already has at least this value. */
  predicate Reached(progress: map<Id, Progress>, book: Id, kind: string, value: int)
  {
    exists id ::
      id in progress && progress[id].bookId == book && progress[id].progressType == kind && value <= progress[id].value
  }

  /** The entry an op describes, if it names a book, a value and a time. */
  function ProgressOf(obj: Object, createdAt: string): Option<Progress>
  {
    match (TextField(obj, BookId), IntField(obj, Value), TextField(obj, LoggedAt))
    case (Some(book), Some(value), Some(logged)) =>
      Some(Progress(book, TextField(obj, SessionId), GetOr(TextField(obj, ProgressType), "page"), value,
                    TextField(obj, NoteText), logged, createdAt))
    case _ => None
  }

  function ProgressCreate(t: Tables, op: Op): (r: (Tables, Outcome))
    ensures r.0 == t.(progress := r.0.progress)
  {
    if op.fields.None? then (t, Rejected) else
    var row := ProgressOf(op.fields.value, op.createdAt);
    if row.None? then (t, Failed) else
    var entry := row.value;
    if Reached(t.progress, entry.bookId, entry.progressType, entry.value) || op.entityId in t.progress then (t, SKIPPED)
    else if entry.bookId !in t.books || (entry.sessionId.Some? && entry.sessionId.value !in t.sessions) then (t, Failed)
    else (t.(progress := t.progress[op.entityId := entry]), APPLIED)
  }

  // ---------------------------------------------------------------------------
  // Tags: add and remove by name
  // ---------------------------------------------------------------------------

  function TagKeyOf(obj: Object): Option<TagKey>
  {
    if TextField(obj, TagName).None? then None
    else Some(TagKey(LowerCase(TextField(obj, TagName).value), GetOr(TextField(obj, TagType), "general")))
  }

  /** Inserts the tag unless its key or its id is taken. */
  function EnsureTag(tags: map<TagKey, Tag>, key: TagKey, newId: Id, name: string): map<TagKey, Tag>
  {
    if key in tags || IsTagId(tags, newId) then tags else tags[key := Tag(newId, name)]
  }

  /** `newId` is the id generated for a tag that does not exist yet. */
  function TagCreate(t: Tables, op: Op, newId: Id): (r: (Tables, Outcome))
    ensures r.0 == t.(tags := r.0.tags, bookTags := r.0.bookTags)
  {
    if op.fields.None? then (t, Rejected) else
    var key := TagKeyOf(op.fields.value);
    if key.None? then (t, Failed) else
    var tags := EnsureTag(t.tags, key.value, newId, TextField(op.fields.value, TagName).value);
    if key.value !in tags then (t, Failed)
    else if (op.entityId, tags[key.value].id) in t.bookTags then (t.(tags := tags), SKIPPED)
    else if op.entityId !in t.books then (t.(tags := tags), Failed)
    else (t.(tags := tags, bookTags := t.bookTags + {(op.entityId, tags[key.value].id)}), APPLIED)
  }

  function TagDelete(t: Tables, op: Op): (r: (Tables, Outcome))
    ensures r.0 == t.(bookTags := r.0.bookTags)
  {
    if op.fields.None? then (t, Rejected) else
    var key := TagKeyOf(op.fields.value);
    if key.None? then (t, Failed)
    else if key.value !in t.tags || (op.entityId, t.tags[key.value].id) !in t.bookTags then (t, SKIPPED)
    else (t.(bookTags := t.bookTags - {(op.entityId, t.tags[key.value].id)}), APPLIED)
  }

  // ---------------------------------------------------------------------------
  // Notes and reviews: last write wins with a conflict ledger
  // ---------------------------------------------------------------------------

  /** The clock rows and the ledger. */
  datatype Marks = Marks(clocks: map<ClockKey, FieldClock>, conflicts: map<ConflictKey, Conflict>)

  function MarksOf(t: Tables): Marks
  {
    Marks(t.clocks, t.conflicts)
  }

  function FieldKey(op: Op, field: Key): ClockKey
  {
    ClockKey(op.entity, op.entityId, field)
  }

  function LedgerKey(op: Op, field: Key): ConflictKey
  {
    ConflictKey(op.entity, op.entityId, field, op.hlc)
  }

  function ClockIn(clocks: map<ClockKey, FieldClock>, ck: ClockKey): Option<string>
  {
    if ck in clocks then Some(clocks[ck].hlc) else None
  }

  /** The value an op carries for one field. A note op always carries content, by default empty. */
  function Delivered(op: Op, field: Key): Option<Cell>
    requires op.fields.Some?
  {
    var obj := op.fields.value;
    if op.entity == NoteEntity && field == Content then Some(Str(GetOr(TextField(obj, Content), "")))
    else if op.entity == ReviewEntity && field == Content && Content in obj then Some(TextCell(TextField(obj, Content)))
    else if op.entity == ReviewEntity && field == Rating && Rating in obj then Some(IntCell(IntField(obj, Rating)))
    else None
  }

  /** The op carries the field with a newer clock. */
  predicate Wins(m: Marks, op: Op, field: Key)
    requires op.fields.Some?
  {
    Delivered(op, field).Some? && Newer(op.hlc, ClockIn(m.clocks, FieldKey(op, field)))
  }

  /** The op carries a different value for a field last written by another device. */
  predicate Collides(m: Marks, op: Op, field: Key, local: Cell)
    requires op.fields.Some?
  {
    var ck := FieldKey(op, field);
    Delivered(op, field).Some? && Delivered(op, field).value != local && ck in m.clocks
      && m.clocks[ck].device != Some(op.device)
  }

  /** The ledger row of a collision, if there is one. */
  function Report(m: Marks, op: Op, field: Key, local: Cell): seq<(ConflictKey, Conflict)>
    requires op.fields.Some?
  {
    if Collides(m, op, field, local)
    then [(LedgerKey(op, field), Conflict(local, Delivered(op, field).value, m.clocks[FieldKey(op, field)].hlc))]
    else []
  }

  /** Clock and ledger after one field. A ledger row that exists already is kept. */
  function Settle(m: Marks, op: Op, field: Key, local: Cell): Marks
    requires op.fields.Some?
  {
    Marks(if Wins(m, op, field) then m.clocks[FieldKey(op, field) := FieldClock(op.hlc, Some(op.device))] else m.clocks,
          if !Collides(m, op, field, local) || LedgerKey(op, field) in m.conflicts then m.conflicts
          else m.conflicts[LedgerKey(op, field) := Report(m, op, field, local)[0].1])
  }

  function NoteUpdate(t: Tables, op: Op): (r: (Tables, Outcome))
    requires op.entity == NoteEntity
    ensures OnlyNote(t, r.0, op)
  {
    hide Delivered, TextField, Newer;
    if op.entityId !in t.notes || t.notes[op.entityId].tombstone.Some? || op.fields.None? then (t, SKIPPED) else
    var m, note := MarksOf(t), t.notes[op.entityId];
    var wins, report, settled :=
      Wins(m, op, Content), Report(m, op, Content, Str(note.content)), Settle(m, op, Content, Str(note.content));
    var content := if wins then GetOr(TextField(op.fields.value, Content), "") else note.content;
    (t.(notes := t.notes[op.entityId := note.(content := content)], clocks := settled.clocks,
        conflicts := settled.conflicts),
     if wins then Applied(report) else Skipped(report))
  }

  function NoteCreate(t: Tables, op: Op): (r: (Tables, Outcome))
    requires op.entity == NoteEntity
    ensures OnlyNote(t, r.0, op)
  {
    if op.entityId in t.notes then NoteUpdate(t, op)
    else if op.fields.None? then (t, Rejected) else
    var book := TextField(op.fields.value, BookId);
    if book.None? || book.value !in t.books then (t, Failed)
    else (t.(notes := t.notes[op.entityId := Note(book.value, GetOr(TextField(op.fields.value, Content), ""), None)]),
          APPLIED)
  }

  function NoteDelete(t: Tables, op: Op): (r: (Tables, Outcome))
    ensures OnlyNote(t, r.0, op)
  {
    if op.entityId !in t.notes || t.notes[op.entityId].tombstone.Some? then (t, SKIPPED)
    else (t.(notes := t.notes[op.entityId := t.notes[op.entityId].(tombstone := Some(Tombstone(op.hlc, op.device)))]),
          APPLIED)
  }

  function ReviewUpdate(t: Tables, op: Op): (r: (Tables, Outcome))
    requires op.entity == ReviewEntity
    ensures OnlyReview(t, r.0, op)
  {
    hide Delivered, TextField, IntField, Newer;
    if op.entityId !in t.reviews || t.reviews[op.entityId].tombstone.Some? || op.fields.None? then (t, SKIPPED) else
    var m, review := MarksOf(t), t.reviews[op.entityId];
    var local, stars := TextCell(review.content), IntCell(review.rating);
    var m1 := Settle(m, op, Content, local);
    var m2 := Settle(m1, op, Rating, stars);
    var report := Report(m, op, Content, local) + Report(m1, op, Rating, stars);
    var content := if Wins(m, op, Content) then TextField(op.fields.value, Content) else review.content;
    var rating := if Wins(m1, op, Rating) then IntField(op.fields.value, Rating) else review.rating;
    (t.(reviews := t.reviews[op.entityId := review.(content := content, rating := rating)], clocks := m2.clocks,
        conflicts := m2.conflicts),
     if Wins(m, op, Content) || Wins(m1, op, Rating) then Applied(report) else Skipped(report))
  }

  function ReviewCreate(t: Tables, op: Op): (r: (Tables, Outcome))
    requires op.entity == ReviewEntity
    ensures OnlyReview(t, r.0, op)
  {
    if op.entityId in t.reviews then ReviewUpdate(t, op)
    else if op.fields.None? then (t, Rejected) else
    var book := TextField(op.fields.value, BookId);
    if book.None? || book.value !in t.books then (t, Failed)
    else (t.(reviews := t.reviews[op.entityId :=
            Review(book.value, TextField(op.fields.value, Content), IntField(op.fields.value, Rating), None)]), APPLIED)
  }

  function ReviewDelete(t: Tables, op: Op): (r: (Tables, Outcome))
    ensures OnlyReview(t, r.0, op)
  {
    if op.entityId !in t.reviews || t.reviews[op.entityId].tombstone.Some? then (t, SKIPPED)
    else (t.(reviews := t.reviews[op.entityId :=
               t.reviews[op.entityId].(tombstone := Some(Tombstone(op.hlc, op.device)))]), APPLIED)
  }

  // ---------------------------------------------------------------------------
  // Settings: last write wins per row
  // ---------------------------------------------------------------------------

  predicate KeyTaken(settings: map<Id, Setting>, key: string)
  {
    exists id :: id in settings && settings[id].key == key
  }

  /** The key and value an op carries. */
  function SettingOf(obj: Object): Option<(string, string)>
  {
    match (TextField(obj, SettingKey), TextField(obj, Value))
    case (Some(key), Some(value)) => Some((key, value))
    case _ => None
  }

  function SettingUpsert(t: Tables, op: Op): (r: (Tables, Outcome))
    ensures OnlySetting(t, r.0, op.entityId)
  {
    if op.fields.None? then (t, Rejected) else
    var pair := SettingOf(op.fields.value);
    if pair.None? then (t, Failed)
    else if op.entityId in t.settings then
      var prior := t.settings[op.entityId];
      if !Newer(op.hlc, prior.syncHlc) then (t, SKIPPED)
      else (t.(settings := t.settings[op.entityId := prior.(value := pair.value.1, syncHlc := Some(op.hlc))]), APPLIED)
    else if KeyTaken(t.settings, pair.value.0) then (t, Failed)
    else (t.(settings := t.settings[op.entityId := Setting(pair.value.0, pair.value.1, Some(op.hlc))]), APPLIED)
  }

  function SettingDelete(t: Tables, op: Op): (r: (Tables, Outcome))
    ensures OnlySetting(t, r.0, op.entityId)
  {
    if op.entityId !in t.settings then (t, SKIPPED)
    else (t.(settings := t.settings - {op.entityId}), APPLIED)
  }

  // ---------------------------------------------------------------------------
  // Dispatch and runs
  // ---------------------------------------------------------------------------

  /** One op. `newId` is the id a new tag would get. */
  function Merge(t: Tables, op: Op, newId: Id): (Tables, Outcome)
  {
    match op.entity
    case BookEntity =>
      (match op.opType
       case Create => BookCreate(t, op)
       case Update => BookUpdate(t, op)
       case Delete => BookDelete(t, op))
    case SessionEntity => if op.opType == Create then SessionCreate(t, op) else (t, SKIPPED)
    case ProgressEntity => if op.opType == Create then ProgressCreate(t, op) else (t, SKIPPED)
    case TagEntity =>
      (match op.opType
       case Create => TagCreate(t, op, newId)
       case Delete => TagDelete(t, op)
       case Update => (t, SKIPPED))
    case NoteEntity =>
      (match op.opType
       case Create => NoteCreate(t, op)
       case Update => NoteUpdate(t, op)
       case Delete => NoteDelete(t, op))
    case ReviewEntity =>
      (match op.opType
       case Create => ReviewCreate(t, op)
       case Update => ReviewUpdate(t, op)
       case Delete => ReviewDelete(t, op))
    case SettingEntity => if op.opType == Delete then SettingDelete(t, op) else SettingUpsert(t, op)
    case DeviceEntity => (t, SKIPPED)
  }

  function Step(t: Tables, op: Op, newId: Id): Tables
  {
    Merge(t, op, newId).0
  }

  /** One delivery: an op with the tag id its device would generate. */
  datatype Delivery = Delivery(op: Op, newId: Id)

  function Run(t: Tables, ds: seq<Delivery>): Tables
    decreases |ds|
  {
    if ds == [] then t else Run(Step(t, ds[0].op, ds[0].newId), ds[1..])
  }

  /** The ops of a run. */
  function Ops(ds: seq<Delivery>): set<Op>
  {
    set d | d in ds :: d.op
  }

  lemma BookMerge(t: Tables, op: Op, newId: Id)
    requires op.entity == BookEntity
    ensures Merge(t, op, newId) ==
      if op.opType == Create then BookCreate(t, op) else if op.opType == Update then BookUpdate(t, op)
        else BookDelete(t, op)
  {
    hide BookCreate, BookUpdate, BookDelete;
  }

  lemma NoteMerge(t: Tables, op: Op, newId: Id)
    requires op.entity == NoteEntity
    ensures Merge(t, op, newId) ==
      if op.opType == Create then NoteCreate(t, op) else if op.opType == Update then NoteUpdate(t, op)
        else NoteDelete(t, op)
  {
    hide NoteCreate, NoteUpdate, NoteDelete, OnlyNote;
  }

  lemma ReviewMerge(t: Tables, op: Op, newId: Id)
    requires op.entity == ReviewEntity
    ensures Merge(t, op, newId) ==
      if op.opType == Create then ReviewCreate(t, op) else if op.opType == Update then ReviewUpdate(t, op)
        else ReviewDelete(t, op)
  {
    hide ReviewCreate, ReviewUpdate, ReviewDelete, OnlyReview;
  }

  lemma SettingMerge(t: Tables, op: Op, newId: Id)
    requires op.entity == SettingEntity
    ensures Merge(t, op, newId) == if op.opType == Delete then SettingDelete(t, op) else SettingUpsert(t, op)
  {
    hide SettingUpsert, SettingDelete, OnlySetting;
  }

  lemma TagMerge(t: Tables, op: Op, newId: Id)
    requires op.entity == TagEntity
    ensures Merge(t, op, newId) ==
      if op.opType == Create then TagCreate(t, op, newId) else if op.opType == Delete then TagDelete(t, op)
        else (t, SKIPPED)
  {
    hide TagCreate, TagDelete;
  }

  // ---------------------------------------------------------------------------
  // What a step leaves alone
  // ---------------------------------------------------------------------------

  lemma BookFrame(t: Tables, op: Op, newId: Id)
    requires op.entity == BookEntity
    ensures OnlyBook(t, Step(t, op, newId), op.entityId)
  {
    hide BookCreate, BookUpdate, BookDelete, OnlyBook;
  }

  lemma NoteFrame(t: Tables, op: Op, newId: Id)
    requires op.entity == NoteEntity
    ensures OnlyNote(t, Step(t, op, newId), op)
  {
    hide NoteCreate, NoteUpdate, NoteDelete, OnlyNote;
  }

  lemma ReviewFrame(t: Tables, op: Op, newId: Id)
    requires op.entity == ReviewEntity
    ensures OnlyReview(t, Step(t, op, newId), op)
  {
    hide ReviewCreate, ReviewUpdate, ReviewDelete, OnlyReview;
  }

  lemma SettingFrame(t: Tables, op: Op, newId: Id)
    requires op.entity == SettingEntity
    ensures OnlySetting(t, Step(t, op, newId), op.entityId)
  {
    hide SettingUpsert, SettingDelete, OnlySetting;
  }

  lemma SessionFrame(t: Tables, op: Op, newId: Id)
    requires op.entity == SessionEntity
    ensures Step(t, op, newId) == t.(sessions := Step(t, op, newId).sessions)
    ensures Step(t, op, newId) == if op.opType == Create then SessionCreate(t, op).0 else t
  {
    hide SessionCreate;
  }

  lemma ProgressFrame(t: Tables, op: Op, newId: Id)
    requires op.entity == ProgressEntity
    ensures Step(t, op, newId) == t.(progress := Step(t, op, newId).progress)
    ensures Step(t, op, newId) == if op.opType == Create then ProgressCreate(t, op).0 else t
  {
    hide ProgressCreate;
  }

  lemma TagFrame(t: Tables, op: Op, newId: Id)
    requires op.entity == TagEntity
    ensures Step(t, op, newId) == t.(tags := Step(t, op, newId).tags, bookTags := Step(t, op, newId).bookTags)
    ensures Step(t, op, newId) ==
      if op.opType == Create then TagCreate(t, op, newId).0 else if op.opType == Delete then TagDelete(t, op).0 else t
  {
    hide TagCreate, TagDelete;
  }

  lemma DeviceFrame(t: Tables, op: Op, newId: Id)
    requires op.entity == DeviceEntity
    ensures Step(t, op, newId) == t
  {
  }

  lemma FactFrame(t: Tables, op: Op, newId: Id)
    requires op.entity.SessionEntity? || op.entity.ProgressEntity? || op.entity.TagEntity? || op.entity.DeviceEntity?
    ensures OnlyFacts(t, Step(t, op, newId))
  {
    hide Step;
    match op.entity
    case SessionEntity => SessionFrame(t, op, newId);
    case ProgressEntity => ProgressFrame(t, op, newId);
    case TagEntity => TagFrame(t, op, newId);
    case DeviceEntity => DeviceFrame(t, op, newId);
  }

  /** What a step on notes or reviews leaves alone. */
  lemma RemarkFrame(t: Tables, op: Op, newId: Id)
    requires op.entity == NoteEntity || op.entity == ReviewEntity
    ensures var u := Step(t, op, newId);
      && u.books == t.books && u.sessions == t.sessions && u.progress == t.progress
      && u.tags == t.tags && u.bookTags == t.bookTags && u.settings == t.settings
    ensures op.entity == NoteEntity ==> Step(t, op, newId).reviews == t.reviews
    ensures op.entity == ReviewEntity ==> Step(t, op, newId).notes == t.notes
  {
    hide Step, SameExcept, SameClocksElsewhere;
    if op.entity == NoteEntity {
      NoteFrame(t, op, newId);
    } else {
      ReviewFrame(t, op, newId);
    }
  }

  /** What a step on anything else leaves alone. */
  lemma OtherFrame(t: Tables, op: Op, newId: Id)
    requires op.entity != NoteEntity && op.entity != ReviewEntity
    ensures var u := Step(t, op, newId);
      u.notes == t.notes && u.reviews == t.reviews && u.clocks == t.clocks && u.conflicts == t.conflicts
    ensures op.entity != BookEntity ==> Step(t, op, newId).books == t.books
    ensures op.entity != SettingEntity ==> Step(t, op, newId).settings == t.settings
  {
    hide Step, SameExcept, KeyTaken;
    match op.entity
    case BookEntity => BookFrame(t, op, newId);
    case SettingEntity => SettingFrame(t, op, newId);
    case _ => FactFrame(t, op, newId);
  }

  /** A step writes no table but those of its own kind of entity. */
  lemma StepFrame(t: Tables, op: Op, newId: Id)
    ensures op.entity != BookEntity ==> Step(t, op, newId).books == t.books
    ensures op.entity != SessionEntity ==> Step(t, op, newId).sessions == t.sessions
    ensures op.entity != ProgressEntity ==> Step(t, op, newId).progress == t.progress
    ensures op.entity != TagEntity ==> Step(t, op, newId).tags == t.tags && Step(t, op, newId).bookTags == t.bookTags
    ensures op.entity != NoteEntity ==> Step(t, op, newId).notes == t.notes
    ensures op.entity != ReviewEntity ==> Step(t, op, newId).reviews == t.reviews
    ensures op.entity != SettingEntity ==> Step(t, op, newId).settings == t.settings
    ensures op.entity != NoteEntity && op.entity != ReviewEntity ==> MarksOf(Step(t, op, newId)) == MarksOf(t)
  {
    hide Step;
    if op.entity == NoteEntity || op.entity == ReviewEntity {
      RemarkFrame(t, op, newId);
    } else {
      OtherFrame(t, op, newId);
      FactsFrame(t, op, newId);
    }
  }

  lemma FactsFrame(t: Tables, op: Op, newId: Id)
    requires op.entity != NoteEntity && op.entity != ReviewEntity
    ensures op.entity != SessionEntity ==> Step(t, op, newId).sessions == t.sessions
    ensures op.entity != ProgressEntity ==> Step(t, op, newId).progress == t.progress
    ensures op.entity != TagEntity ==> Step(t, op, newId).tags == t.tags && Step(t, op, newId).bookTags == t.bookTags
  {
    hide Step, SameExcept, KeyTaken;
    match op.entity
    case BookEntity => BookFrame(t, op, newId);
    case SettingEntity => SettingFrame(t, op, newId);
    case SessionEntity => SessionFrame(t, op, newId);
    case ProgressEntity => ProgressFrame(t, op, newId);
    case TagEntity => TagFrame(t, op, newId);
    case DeviceEntity => DeviceFrame(t, op, newId);
  }

  /** Books are never removed. */
  lemma StepKeepsBooks(t: Tables, op: Op, newId: Id, id: Id)
    requires id in t.books
    ensures id in Step(t, op, newId).books
  {
    hide Step;
    if op.entity == BookEntity {
      BookFrame(t, op, newId);
    } else {
      StepFrame(t, op, newId);
    }
  }

  /** Sessions are never removed or changed. */
  lemma StepKeepsSession(t: Tables, op: Op, newId: Id, id: Id)
    requires id in t.sessions
    ensures id in Step(t, op, newId).sessions && Step(t, op, newId).sessions[id] == t.sessions[id]
  {
    hide Step;
    if op.entity == SessionEntity {
      SessionFrame(t, op, newId);
      CreateKeepsSession(t, op, id);
    } else {
      StepFrame(t, op, newId);
    }
  }

  lemma CreateKeepsSession(t: Tables, op: Op, id: Id)
    requires id in t.sessions
    ensures id in SessionCreate(t, op).0.sessions && SessionCreate(t, op).0.sessions[id] == t.sessions[id]
  {
    hide SessionOf;
  }

  lemma {:induction false} RunAppend(t: Tables, ds: seq<Delivery>, es: seq<Delivery>)
    ensures Run(t, ds + es) == Run(Run(t, ds), es)
    decreases |ds|
  {
    if ds == [] {
      assert ds + es == es;
    } else {
      assert (ds + es)[1..] == ds[1..] + es;
      RunAppend(Step(t, ds[0].op, ds[0].newId), ds[1..], es);
    }
  }

  lemma RunSplitsAt(t: Tables, ds: seq<Delivery>, n: nat)
    requires n < |ds|
    ensures Run(t, ds[..n + 1]) == Step(Run(t, ds[..n]), ds[n].op, ds[n].newId)
  {
    hide Step;
    assert ds[..n + 1] == ds[..n] + [ds[n]];
    RunAppend(t, ds[..n], [ds[n]]);
    assert [ds[n]][1..] == [];
  }

  lemma RunTail(t: Tables, ds: seq<Delivery>, n: nat)
    requires n < |ds|
    ensures Run(t, ds) == Run(Step(Run(t, ds[..n]), ds[n].op, ds[n].newId), ds[n + 1..])
  {
    hide Step;
    assert ds == ds[..n] + ds[n..];
    RunAppend(t, ds[..n], ds[n..]);
    assert ds[n..][0] == ds[n] && ds[n..][1..] == ds[n + 1..];
  }
}
