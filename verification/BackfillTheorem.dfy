/** Which live rows a backfill reaches: exactly those the repository can read. */
module BackfillTheorem {
  import opened Wrappers
  import opened Text
  import opened Statuses
  import opened Library
  import opened MergeRules
  import opened Snapshots
  import opened SyncLog
  import opened Backfills
  import BookRuns

  // ---------------------------------------------------------------------------
  // The exact condition
  // ---------------------------------------------------------------------------

  /** The log has a Create op about the subject. */
  predicate HasCreate(log: Log, s: Subject)
  {
    s in Existing(log)
  }

  function TagSubject(book: Id, name: string, tagType: string): Subject
  {
    Subject(TagEntity, book, Some((name, NormalTagType(tagType))))
  }

  /** A subject without an op gets one exactly when some visited row goes by it. */
  lemma CoveredByEntry(t: Tables, es: seq<Entry>, log: Log, device: Id, tickets: nat -> Ticket, s: Subject)
    requires Enumerates(es, t) && AllEmittable(es) && !HasCreate(log, s)
    ensures HasCreate(Backfilled(log, device, es, tickets), s) <==>
      exists e :: IsEntry(t, ListedBooks(t), e) && KeyOf(e) == s
  {
    hide KeyOf, IsEntry, Backfilled, Existing;
    BackfillIsComplete(t, es, log, device, tickets, t, es);
    if e :| IsEntry(t, ListedBooks(t), e) && KeyOf(e) == s {
      assert e in es;
    }
  }

  /** A live book without an op gets one exactly when its row parses. */
  lemma BooksCovered(t: Tables, es: seq<Entry>, log: Log, device: Id, tickets: nat -> Ticket, id: Id)
    requires Enumerates(es, t) && AllEmittable(es) && BookRuns.Live(t, id)
    requires !HasCreate(log, Subject(BookEntity, id, None))
    ensures HasCreate(Backfilled(log, device, es, tickets), Subject(BookEntity, id, None)) <==> Readable(t.books[id])
  {
    hide Backfilled, Enumerates, AllEmittable, HasCreate, Readable, ReadableSession, ReadableProgress;
    CoveredByEntry(t, es, log, device, tickets, Subject(BookEntity, id, None));
    assert IsEntry(t, ListedBooks(t), ABook(id, t.books[id])) <==> Readable(t.books[id]);
    assert KeyOf(ABook(id, t.books[id])) == Subject(BookEntity, id, None);
  }

  /** So does a session of a live book, if book and session parse. */
  lemma SessionsCovered(t: Tables, es: seq<Entry>, log: Log, device: Id, tickets: nat -> Ticket, id: Id)
    requires Enumerates(es, t) && AllEmittable(es) && id in t.sessions && BookRuns.Live(t, t.sessions[id].bookId)
    requires !HasCreate(log, Subject(SessionEntity, id, None))
    ensures HasCreate(Backfilled(log, device, es, tickets), Subject(SessionEntity, id, None)) <==>
      Readable(t.books[t.sessions[id].bookId]) && ReadableSession(t.sessions[id])
  {
    hide Backfilled, Enumerates, AllEmittable, HasCreate, Readable, ReadableSession, ReadableProgress;
    CoveredByEntry(t, es, log, device, tickets, Subject(SessionEntity, id, None));
    assert IsEntry(t, ListedBooks(t), ASession(id, t.sessions[id])) <==>
      Readable(t.books[t.sessions[id].bookId]) && ReadableSession(t.sessions[id]);
    assert KeyOf(ASession(id, t.sessions[id])) == Subject(SessionEntity, id, None);
  }

  /** And a progress entry. */
  lemma ProgressCovered(t: Tables, es: seq<Entry>, log: Log, device: Id, tickets: nat -> Ticket, id: Id)
    requires Enumerates(es, t) && AllEmittable(es) && id in t.progress && BookRuns.Live(t, t.progress[id].bookId)
    requires !HasCreate(log, Subject(ProgressEntity, id, None))
    ensures HasCreate(Backfilled(log, device, es, tickets), Subject(ProgressEntity, id, None)) <==>
      Readable(t.books[t.progress[id].bookId]) && ReadableProgress(t.progress[id])
  {
    hide Backfilled, Enumerates, AllEmittable, HasCreate, Readable, ReadableSession, ReadableProgress;
    CoveredByEntry(t, es, log, device, tickets, Subject(ProgressEntity, id, None));
    assert IsEntry(t, ListedBooks(t), AProgress(id, t.progress[id])) <==>
      Readable(t.books[t.progress[id].bookId]) && ReadableProgress(t.progress[id]);
    assert KeyOf(AProgress(id, t.progress[id])) == Subject(ProgressEntity, id, None);
  }

  /** And a tag on a live book, if the book parses. */
  lemma TagsCovered(t: Tables, es: seq<Entry>, log: Log, device: Id, tickets: nat -> Ticket, book: Id, k: TagKey)
    requires Enumerates(es, t) && AllEmittable(es) && BookRuns.Live(t, book)
    requires k in t.tags && (book, t.tags[k].id) in t.bookTags && k.folded == LowerCase(t.tags[k].name)
    requires !HasCreate(log, TagSubject(book, t.tags[k].name, k.tagType))
    ensures HasCreate(Backfilled(log, device, es, tickets), TagSubject(book, t.tags[k].name, k.tagType)) <==>
      Readable(t.books[book])
  {
    hide Backfilled, Enumerates, AllEmittable, HasCreate, Readable, ReadableSession, ReadableProgress, LowerCase;
    hide NormalTagType;
    CoveredByEntry(t, es, log, device, tickets, TagSubject(book, t.tags[k].name, k.tagType));
    var e := ATag(book, t.tags[k].name, k.tagType);
    assert IsEntry(t, ListedBooks(t), e) <==> Readable(t.books[book]);
    assert KeyOf(e) == TagSubject(book, t.tags[k].name, k.tagType);
  }

  // ---------------------------------------------------------------------------
  // A live book that is never backfilled
  // ---------------------------------------------------------------------------

  /** No op is added for a book or anything on it. */
  ghost predicate NothingAdded(t: Tables, book: Id, log: Log, after: Log)
  {
    && (HasCreate(after, Subject(BookEntity, book, None)) ==> HasCreate(log, Subject(BookEntity, book, None)))
    && (forall id | id in t.sessions && t.sessions[id].bookId == book ::
          HasCreate(after, Subject(SessionEntity, id, None)) ==> HasCreate(log, Subject(SessionEntity, id, None)))
    && (forall id | id in t.progress && t.progress[id].bookId == book ::
          HasCreate(after, Subject(ProgressEntity, id, None)) ==> HasCreate(log, Subject(ProgressEntity, id, None)))
    && (forall k | k in t.tags && (book, t.tags[k].id) in t.bookTags ::
          HasCreate(after, TagSubject(book, t.tags[k].name, k.tagType)) ==>
            HasCreate(log, TagSubject(book, t.tags[k].name, k.tagType)))
  }

  /** A live book whose row does not parse is not backfilled, and neither are its sessions, progress and tags. */
  lemma UnreadableBookIsNotBackfilled(t: Tables, book: Id, es: seq<Entry>, log: Log, device: Id,
                                      tickets: nat -> Ticket)
    requires Enumerates(es, t) && AllEmittable(es) && TagsAreFolded(t.tags)
    requires BookRuns.Live(t, book) && !Readable(t.books[book])
    ensures NothingAdded(t, book, log, Backfilled(log, device, es, tickets))
  {
    hide Backfilled, Enumerates, AllEmittable, HasCreate, Readable, ReadableSession, ReadableProgress;
    hide LowerCase, TagSubject;
    var after := Backfilled(log, device, es, tickets);
    if !HasCreate(log, Subject(BookEntity, book, None)) {
      BooksCovered(t, es, log, device, tickets, book);
    }
    forall id | id in t.sessions && t.sessions[id].bookId == book && !HasCreate(log, Subject(SessionEntity, id, None))
      ensures !HasCreate(after, Subject(SessionEntity, id, None))
    {
      SessionsCovered(t, es, log, device, tickets, id);
    }
    forall id | id in t.progress && t.progress[id].bookId == book
      && !HasCreate(log, Subject(ProgressEntity, id, None))
      ensures !HasCreate(after, Subject(ProgressEntity, id, None))
    {
      ProgressCovered(t, es, log, device, tickets, id);
    }
    forall k | k in t.tags && (book, t.tags[k].id) in t.bookTags
      && !HasCreate(log, TagSubject(book, t.tags[k].name, k.tagType))
      ensures !HasCreate(after, TagSubject(book, t.tags[k].name, k.tagType))
    {
      TagsCovered(t, es, log, device, tickets, book, k);
    }
  }

  /** A status that arrives as a newer number, or as any other value whose text is no status, is stored, and
      the row no longer parses. The book stays live, yet neither it nor its sessions, progress and tags are
      backfilled. */
  lemma UntypedStatusIsNotBackfilled(t: Tables, op: Op, v: Json, es: seq<Entry>, log: Log, device: Id,
                                     tickets: nat -> Ticket)
    requires op.entity == BookEntity && BookRuns.Live(t, op.entityId)
    requires BookRuns.StatusOf(t.books[op.entityId]).Some?
    requires v.JInt? || v.JBool? || (v.JOther? && ParseStatus(v.raw).None?)
    requires op.fields == Some(map[Status := v]) && Newer(op.hlc, ClockOf(t.books[op.entityId], Status))
    requires Enumerates(es, BookUpdate(t, op).0) && AllEmittable(es) && TagsAreFolded(t.tags)
    ensures BookRuns.Live(BookUpdate(t, op).0, op.entityId)
    ensures NothingAdded(t, op.entityId, log, Backfilled(log, device, es, tickets))
  {
    hide Backfilled, Enumerates, AllEmittable, HasCreate, BookUpdate, Newer, ParseStatus, TagsAreFolded;
    hide TagSubject;
    var u := BookUpdate(t, op).0;
    BookRuns.UntypedStatusLeavesAutomaton(t, op, v);
    assert !Readable(u.books[op.entityId]);
    hide Readable;
    UnreadableBookIsNotBackfilled(u, op.entityId, es, log, device, tickets);
  }

  /** So it is with a newer work that is no UUID: an update stores any text there. */
  lemma NamedWorkIsNotBackfilled(t: Tables, op: Op, work: string, es: seq<Entry>, log: Log, device: Id,
                                 tickets: nat -> Ticket)
    requires op.entity == BookEntity && BookRuns.Live(t, op.entityId) && !IsUuid(work)
    requires op.fields == Some(map[WorkId := JStr(work)]) && Newer(op.hlc, ClockOf(t.books[op.entityId], WorkId))
    requires Enumerates(es, BookUpdate(t, op).0) && AllEmittable(es) && TagsAreFolded(t.tags)
    ensures BookRuns.Live(BookUpdate(t, op).0, op.entityId)
    ensures NothingAdded(t, op.entityId, log, Backfilled(log, device, es, tickets))
  {
    hide Backfilled, Enumerates, AllEmittable, HasCreate, BookUpdate, Newer, IsUuid, TagsAreFolded, TagSubject;
    var u := BookUpdate(t, op).0;
    StoredWork(t, op, work);
    assert !Readable(u.books[op.entityId]) by {
      hide ParseFormat, ParseStatus, IsTextCell, IsSmallCell;
    }
    hide Readable;
    UnreadableBookIsNotBackfilled(u, op.entityId, es, log, device, tickets);
  }

  lemma StoredWork(t: Tables, op: Op, work: string)
    requires op.entity == BookEntity && BookRuns.Live(t, op.entityId)
    requires op.fields == Some(map[WorkId := JStr(work)]) && Newer(op.hlc, ClockOf(t.books[op.entityId], WorkId))
    ensures BookRuns.Live(BookUpdate(t, op).0, op.entityId)
    ensures CellOf(BookUpdate(t, op).0.books[op.entityId], WorkId) == Str(work)
  {
    hide VisitAll, Newer, StatusVerdict;
    var w := Walk(t.books[op.entityId], false, Going);
    BookFieldsAreDistinct();
    BookRuns.WalkOfOneKey(w, BOOK_FIELDS, WorkId, op.fields.value, op.hlc);
  }

  /** A short name is no UUID. */
  lemma NameIsNoUuid(name: string)
    requires |name| < 32
    ensures !IsUuid(name)
  {
  }

  /** A deleted book gets no op, and neither does anything on it: there is nothing to delete elsewhere. */
  lemma DeletedBookIsNotBackfilled(t: Tables, book: Id, es: seq<Entry>, log: Log, device: Id, tickets: nat -> Ticket)
    requires Enumerates(es, t) && AllEmittable(es) && TagsAreFolded(t.tags)
    requires book in t.books && t.books[book].tombstone.Some?
    ensures NothingAdded(t, book, log, Backfilled(log, device, es, tickets))
  {
    hide Backfilled, Enumerates, AllEmittable, HasCreate, Readable, ReadableSession, ReadableProgress;
    hide LowerCase, NormalTagType;
    var after := Backfilled(log, device, es, tickets);
    if !HasCreate(log, Subject(BookEntity, book, None)) {
      CoveredByEntry(t, es, log, device, tickets, Subject(BookEntity, book, None));
    }
    forall id | id in t.sessions && t.sessions[id].bookId == book && !HasCreate(log, Subject(SessionEntity, id, None))
      ensures !HasCreate(after, Subject(SessionEntity, id, None))
    {
      CoveredByEntry(t, es, log, device, tickets, Subject(SessionEntity, id, None));
    }
    forall id | id in t.progress && t.progress[id].bookId == book
      && !HasCreate(log, Subject(ProgressEntity, id, None))
      ensures !HasCreate(after, Subject(ProgressEntity, id, None))
    {
      CoveredByEntry(t, es, log, device, tickets, Subject(ProgressEntity, id, None));
    }
    forall k | k in t.tags && (book, t.tags[k].id) in t.bookTags
      && !HasCreate(log, TagSubject(book, t.tags[k].name, k.tagType))
      ensures !HasCreate(after, TagSubject(book, t.tags[k].name, k.tagType))
    {
      CoveredByEntry(t, es, log, device, tickets, TagSubject(book, t.tags[k].name, k.tagType));
    }
  }
}
