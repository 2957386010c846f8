/** First opt-in: Create ops for the rows that have none yet. */
module Backfills {
  import opened Wrappers
  import opened Text
  import opened Instants
  import opened Hlc
  import opened HybridClocks
  import opened Statuses
  import opened Library
  import opened MergeRules
  import opened Snapshots
  import opened SyncLog

  // ---------------------------------------------------------------------------
  // Rows as Create ops
  // ---------------------------------------------------------------------------

  /** A row to be backfilled; a tag entry is a tag on a book. */
  datatype Entry =
    | ABook(id: Id, book: Book)
    | ASession(id: Id, session: Session)
    | AProgress(id: Id, progress: Progress)
    | ATag(id: Id, name: string, tagType: string)

  predicate IsI32(n: int)
  {
    -0x8000_0000 <= n < 0x8000_0000
  }

  predicate SmallInt(o: Option<int>)
  {
    o.Some? ==> IsI32(o.value)
  }

  function ParseFormat(s: string): Option<string>
  {
    var t := LowerCase(s);
    if t == "physical" || t == "ebook" || t == "audiobook" then Some(t) else None
  }

  function ParseProgressType(s: string): Option<string>
  {
    var t := LowerCase(s);
    if t == "page" || t == "percent" || t == "chapter" || t == "duration" then Some(t) else None
  }

  /** `TagType`, by its canonical spelling. Unknown types read as general. */
  function NormalTagType(s: string): string
  {
    var t := LowerCase(s);
    if t == "mood" || t == "pace" then t
    else if t == "content_warning" || t == "content-warning" || t == "cw" then "content_warning"
    else "general"
  }

  predicate IsSmallCell(c: Cell)
  {
    c.Nil? || (c.Int? && IsI32(c.number))
  }

  predicate IsHex(c: char)
  {
    IsDigit(c) || 'a' <= c <= 'f' || 'A' <= c <= 'F'
  }

  predicate IsHyphenated(s: string)
  {
    |s| == 36 && forall i :: 0 <= i < 36 ==>
      if i == 8 || i == 13 || i == 18 || i == 23 then s[i] == '-' else IsHex(s[i])
  }

  /** `Uuid::parse_str`: 32 digits, or hyphenated, which may be in braces or a URN. */
  predicate IsUuid(s: string)
  {
    || (|s| == 32 && forall i :: 0 <= i < 32 ==> IsHex(s[i]))
    || IsHyphenated(s)
    || (|s| == 38 && s[0] == '{' && s[37] == '}' && IsHyphenated(s[1..37]))
    || (|s| == 45 && s[..9] == "urn:uuid:" && IsHyphenated(s[9..]))
  }

  /** The work is read as a UUID. */
  predicate IsUuidCell(c: Cell)
  {
    c.Nil? || (c.Str? && IsUuid(c.text))
  }

  /** The repository reads rows into typed records and drops those that do not parse. */
  predicate Readable(b: Book)
  {
    && CellOf(b, Title).Str?
    && CellOf(b, Format).Str? && ParseFormat(CellOf(b, Format).text).Some?
    && CellOf(b, Status).Str? && ParseStatus(CellOf(b, Status).text).Some?
    && IsTextCell(CellOf(b, Subtitle)) && IsTextCell(CellOf(b, Description)) && IsTextCell(CellOf(b, PubDate))
    && IsTextCell(CellOf(b, Language)) && IsTextCell(CellOf(b, CoverHash)) && IsUuidCell(CellOf(b, WorkId))
    && IsSmallCell(CellOf(b, PageCount)) && IsSmallCell(CellOf(b, DurationMinutes)) && IsSmallCell(CellOf(b, Rating))
  }

  predicate ReadableTime(s: string)
  {
    ParseInstant(s).Some?
  }

  predicate ReadableSession(s: Session)
  {
    && ReadableTime(s.startedAt) && (s.finishedAt.Some? ==> ReadableTime(s.finishedAt.value))
      && ReadableTime(s.createdAt)
    && SmallInt(s.startPage) && SmallInt(s.endPage) && SmallInt(s.rating)
  }

  predicate ReadableProgress(p: Progress)
  {
    && ReadableTime(p.loggedAt) && ReadableTime(p.createdAt)
    && IsI32(p.value) && ParseProgressType(p.progressType).Some?
  }

  /** A time as an op carries it: parsed from the row and written again, in UTC. */
  function InUtc(s: string): string
    requires ReadableTime(s)
  {
    FormatRfc3339(ParseInstant(s).value)
  }

  function TextJson(o: Option<string>): Json
  {
    if o.Some? then JStr(o.value) else JNull
  }

  function IntJson(o: Option<int>): Json
  {
    if o.Some? then JInt(o.value) else JNull
  }

  /** No column of a readable book holds a fraction. */
  function CellJson(c: Cell): Json
  {
    match c
    case Nil => JNull
    case Str(s) => JStr(s)
    case Int(n) => JInt(n)
    case Real(_) => JNull
  }

  /** One column of a book in its Create op: format and status in canonical spelling. */
  function FieldJson(b: Book, k: Key): Json
    requires Readable(b)
  {
    match k
    case Format => JStr(ParseFormat(CellOf(b, Format).text).value)
    case Status => JStr(StatusText(ParseStatus(CellOf(b, Status).text).value))
    case _ => CellJson(CellOf(b, k))
  }

  /** The payload of a book Create op. Works are not synced, so the work is left out. */
  function BookFields(b: Book): Object
    requires Readable(b)
  {
    map k | k in BOOK_FIELDS && k != WorkId :: FieldJson(b, k)
  }

  function SessionFields(s: Session): Object
    requires ReadableSession(s)
  {
    map[
      BookId := JStr(s.bookId), StartedAt := JStr(InUtc(s.startedAt)),
      FinishedAt := if s.finishedAt.Some? then JStr(InUtc(s.finishedAt.value)) else JNull,
      StartPage := IntJson(s.startPage), EndPage := IntJson(s.endPage), Rating := IntJson(s.rating),
      Notes := TextJson(s.notes)]
  }

  function ProgressFields(p: Progress): Object
    requires ReadableProgress(p)
  {
    map[
      BookId := JStr(p.bookId), ProgressType := JStr(ParseProgressType(p.progressType).value), Value := JInt(p.value),
      SessionId := TextJson(p.sessionId), LoggedAt := JStr(InUtc(p.loggedAt)), NoteText := TextJson(p.note)]
  }

  function TagFields(name: string, tagType: string): Object
  {
    map[TagName := JStr(name), TagType := JStr(NormalTagType(tagType))]
  }

  predicate Emittable(e: Entry)
  {
    match e
    case ABook(_, b) => Readable(b)
    case ASession(_, s) => ReadableSession(s)
    case AProgress(_, p) => ReadableProgress(p)
    case ATag(_, _, _) => true
  }

  function EntityOf(e: Entry): EntityType
  {
    match e
    case ABook(_, _) => BookEntity
    case ASession(_, _) => SessionEntity
    case AProgress(_, _) => ProgressEntity
    case ATag(_, _, _) => TagEntity
  }

  function FieldsOf(e: Entry): Object
    requires Emittable(e)
  {
    match e
    case ABook(_, b) => BookFields(b)
    case ASession(_, s) => SessionFields(s)
    case AProgress(_, p) => ProgressFields(p)
    case ATag(_, name, tagType) => TagFields(name, tagType)
  }

  /** The random id, the creation time and the wall-clock reading of one emission. */
  datatype Ticket = Ticket(opId: Id, createdAt: string, wall: nat)

  function DraftOf(e: Entry, ticket: Ticket): Draft
    requires Emittable(e)
  {
    Draft(ticket.opId, EntityOf(e), e.id, Create, Some(FieldsOf(e)), ticket.createdAt)
  }

  // ---------------------------------------------------------------------------
  // What the log already covers
  // ---------------------------------------------------------------------------

  /** What a Create op is about. Tag ops share their book's id, so they go by name and type too. */
  datatype Subject = Subject(entity: EntityType, id: Id, tag: Option<(string, string)>)

  function SubjectOf(op: Op): Option<Subject>
  {
    if op.opType != Create then None else
    match op.entity
    case BookEntity => Some(Subject(BookEntity, op.entityId, None))
    case SessionEntity => Some(Subject(SessionEntity, op.entityId, None))
    case ProgressEntity => Some(Subject(ProgressEntity, op.entityId, None))
    case TagEntity =>
      if op.fields.Some? && TextField(op.fields.value, TagName).Some? && TextField(op.fields.value, TagType).Some?
      then Some(Subject(TagEntity, op.entityId,
                        Some((TextField(op.fields.value, TagName).value, TextField(op.fields.value, TagType).value))))
      else None
    case _ => None
  }

  /** The subjects of the log's Create ops. */
  function Existing(log: Log): set<Subject>
  {
    if log == [] then {}
    else match SubjectOf(log[|log| - 1].op)
      case Some(s) => Existing(log[..|log| - 1]) + {s}
      case None => Existing(log[..|log| - 1])
  }

  /** The log has a Create op about the subject; for a tag one with its name and type. */
  predicate IsCreateOf(op: Op, s: Subject)
  {
    && op.opType == Create && op.entity == s.entity && op.entityId == s.id
    && match op.entity
       case BookEntity | SessionEntity | ProgressEntity => s.tag == None
       case TagEntity =>
         && op.fields.Some? && s.tag.Some?
         && TextField(op.fields.value, TagName) == Some(s.tag.value.0)
         && TextField(op.fields.value, TagType) == Some(s.tag.value.1)
       case _ => false
  }

  lemma CreateSubject(op: Op, s: Subject)
    ensures SubjectOf(op) == Some(s) <==> IsCreateOf(op, s)
  {
    hide TextField;
  }

  /** Only Create ops count as covering a row. */
  lemma {:induction false} ExistingExactly(log: Log, s: Subject)
    ensures s in Existing(log) <==> exists i :: 0 <= i < |log| && IsCreateOf(log[i].op, s)
  {
    hide SubjectOf, IsCreateOf;
    if log != [] {
      var init, last := log[..|log| - 1], log[|log| - 1];
      ExistingExactly(init, s);
      CreateSubject(last.op, s);
      if s in Existing(init) {
        var i :| 0 <= i < |init| && IsCreateOf(init[i].op, s);
        assert log[i] == init[i];
      }
      if i :| 0 <= i < |log| && IsCreateOf(log[i].op, s) {
        assert i < |init| ==> init[i] == log[i];
      }
    }
  }

  /** The key under which an entry is looked up. */
  function KeyOf(e: Entry): Subject
  {
    Subject(EntityOf(e), e.id, if e.ATag? then Some((e.name, NormalTagType(e.tagType))) else None)
  }

  /** The op emitted for an entry is found again under the entry's key. */
  lemma EmittedSubject(log: Log, device: Id, e: Entry, ticket: Ticket)
    requires Emittable(e)
    ensures SubjectOf(LocalOp(log, device, DraftOf(e, ticket), ticket.wall)) == Some(KeyOf(e))
  {
    hide ToCanonical, NextHlc, DevicePrefix, BookFields, SessionFields, ProgressFields, NormalTagType, Readable;
    hide ReadableSession, ReadableProgress;
  }

  // ---------------------------------------------------------------------------
  // The emission of a list of entries
  // ---------------------------------------------------------------------------

  function Missing(es: seq<Entry>, existing: set<Subject>): (r: seq<Entry>)
    ensures forall i :: 0 <= i < |r| ==> r[i] in es && KeyOf(r[i]) !in existing
  {
    if es == [] then []
    else Missing(es[..|es| - 1], existing) + (if KeyOf(es[|es| - 1]) in existing then [] else [es[|es| - 1]])
  }

  predicate AllEmittable(es: seq<Entry>)
  {
    forall i :: 0 <= i < |es| ==> Emittable(es[i])
  }

  function EmitAll(log: Log, device: Id, es: seq<Entry>, tickets: nat -> Ticket): (r: Log)
    requires AllEmittable(es)
    ensures |r| == |log| + |es| && r[..|log|] == log
  {
    if es == [] then log else
    var n := |es| - 1;
    Emit(EmitAll(log, device, es[..n], tickets), device, DraftOf(es[n], tickets(n)), tickets(n).wall)
  }

  /** The row that an emission appends for entry `i`. */
  lemma {:induction false} EmittedRow(log: Log, device: Id, es: seq<Entry>, tickets: nat -> Ticket, i: nat)
    requires AllEmittable(es) && i < |es|
    ensures var row := EmitAll(log, device, es, tickets)[|log| + i];
      && row == LogRow(LocalOp(EmitAll(log, device, es[..i], tickets), device, DraftOf(es[i], tickets(i)),
                               tickets(i).wall), false)
      && SubjectOf(row.op) == Some(KeyOf(es[i]))
  {
    hide LocalOp, DraftOf, SubjectOf, KeyOf, Emittable;
    var n := |es| - 1;
    var before := EmitAll(log, device, es[..n], tickets);
    if i == n {
      EmittedSubject(before, device, es[n], tickets(n));
    } else {
      assert EmitAll(log, device, es, tickets)[..|before|] == before;
      EmittedRow(log, device, es[..n], tickets, i);
      assert es[..n][..i] == es[..i];
    }
  }

  function Keys(es: seq<Entry>): set<Subject>
  {
    set e | e in es :: KeyOf(e)
  }

  lemma KeysAppend(es: seq<Entry>, e: Entry)
    ensures Keys(es + [e]) == Keys(es) + {KeyOf(e)}
  {
    hide KeyOf;
    assert forall f :: f in es + [e] <==> f in es || f == e;
  }

  lemma OneMoreRow(log: Log, row: LogRow, s: Subject)
    requires SubjectOf(row.op) == Some(s)
    ensures Existing(log + [row]) == Existing(log) + {s}
  {
    hide SubjectOf;
    assert (log + [row])[..|log|] == log;
  }

  lemma {:induction false} EmittedSubjects(log: Log, device: Id, es: seq<Entry>, tickets: nat -> Ticket)
    requires AllEmittable(es)
    ensures Existing(EmitAll(log, device, es, tickets)) == Existing(log) + Keys(es)
  {
    hide LocalOp, DraftOf, SubjectOf, KeyOf, Existing, Emittable;
    if es != [] {
      var n := |es| - 1;
      var before := EmitAll(log, device, es[..n], tickets);
      EmittedSubjects(log, device, es[..n], tickets);
      EmittedSubject(before, device, es[n], tickets(n));
      OneMoreRow(before, LogRow(LocalOp(before, device, DraftOf(es[n], tickets(n)), tickets(n).wall), false),
                 KeyOf(es[n]));
      assert es == es[..n] + [es[n]];
      KeysAppend(es[..n], es[n]);
    } else {
      assert Keys(es) == {};
    }
  }

  lemma {:induction false} MissingKeys(es: seq<Entry>, existing: set<Subject>)
    ensures Keys(Missing(es, existing)) == Keys(es) - existing
  {
    hide KeyOf;
    if es != [] {
      var n := |es| - 1;
      MissingKeys(es[..n], existing);
      assert es == es[..n] + [es[n]];
      KeysAppend(es[..n], es[n]);
      var r := Missing(es[..n], existing);
      KeysAppend(r, es[n]);
      assert Missing(es, existing) == if KeyOf(es[n]) in existing then r else r + [es[n]];
    } else {
      assert Keys(es) == {} && Keys(Missing(es, existing)) == {};
    }
  }

  lemma {:induction false} NothingMissing(es: seq<Entry>, existing: set<Subject>)
    requires forall e :: e in es ==> KeyOf(e) in existing
    ensures Missing(es, existing) == []
  {
    hide KeyOf;
    if es != [] {
      NothingMissing(es[..|es| - 1], existing);
    }
  }

  // ---------------------------------------------------------------------------
  // The rows of a library
  // ---------------------------------------------------------------------------

  predicate Listed(b: Book)
  {
    b.tombstone.None? && Readable(b)
  }

  /** The books the repository lists: those not deleted whose rows parse. */
  function ListedBooks(t: Tables): set<Id>
  {
    set id | id in t.books && Listed(t.books[id])
  }

  /** What a backfill visits: the listed books with their sessions, progress and tags that parse.
      `kids` are the books whose progress and tags count. */
  predicate IsEntry(t: Tables, kids: set<Id>, e: Entry)
  {
    match e
    case ABook(id, b) => id in ListedBooks(t) && b == t.books[id]
    case ASession(id, s) => id in t.sessions && s == t.sessions[id] && ReadableSession(s) && s.bookId in ListedBooks(t)
    case AProgress(id, p) => IsProgressEntry(t, id, p) && p.bookId in kids
    case ATag(id, name, tagType) => id in kids && IsTagOn(t, id, TagKey(LowerCase(name), tagType), name)
  }

  predicate IsProgressEntry(t: Tables, id: Id, p: Progress)
  {
    id in t.progress && p == t.progress[id] && ReadableProgress(p)
  }

  predicate IsTagOn(t: Tables, book: Id, k: TagKey, name: string)
  {
    k in t.tags && t.tags[k].name == name && (book, t.tags[k].id) in t.bookTags
  }

  /** The list holds exactly the entries that a set of books contributes, each once. */
  ghost predicate EnumeratesFor(es: seq<Entry>, t: Tables, kids: set<Id>)
  {
    && (forall e :: e in es <==> IsEntry(t, kids, e))
    && (forall i, j :: 0 <= i < j < |es| ==> es[i] != es[j])
  }

  ghost predicate Enumerates(es: seq<Entry>, t: Tables)
  {
    EnumeratesFor(es, t, ListedBooks(t))
  }

  predicate BooksFirst(es: seq<Entry>)
  {
    forall i, j :: 0 <= i < j < |es| && es[j].ABook? ==> es[i].ABook?
  }

  /** Two tags of one book with the same name whose types are spelled differently but read as the same. */
  predicate Twins(a: Entry, b: Entry)
  {
    a.ATag? && b.ATag? && a.id == b.id && a.name == b.name && NormalTagType(a.tagType) == NormalTagType(b.tagType)
  }

  predicate NoTwins(es: seq<Entry>)
  {
    forall i, j :: 0 <= i < j < |es| ==> !Twins(es[i], es[j])
  }

  /** Different entries share a key only when they are twin tags. */
  lemma SharedKey(t: Tables, a: Entry, b: Entry)
    requires IsEntry(t, ListedBooks(t), a) && IsEntry(t, ListedBooks(t), b) && a != b
    ensures KeyOf(a) == KeyOf(b) <==> Twins(a, b)
  {
    hide NormalTagType, ListedBooks, ReadableSession, ReadableProgress;
  }

  lemma {:induction false} MissingKeepsOrder(es: seq<Entry>, existing: set<Subject>)
    requires BooksFirst(es)
    ensures BooksFirst(Missing(es, existing))
  {
    hide KeyOf;
    if es != [] {
      MissingKeepsOrder(es[..|es| - 1], existing);
    }
  }

  predicate Distinct(es: seq<Entry>)
  {
    forall i, j :: 0 <= i < j < |es| ==> es[i] != es[j]
  }

  lemma {:induction false} MissingStaysDistinct(es: seq<Entry>, existing: set<Subject>)
    requires Distinct(es)
    ensures Distinct(Missing(es, existing))
  {
    hide KeyOf;
    if es != [] {
      var n := |es| - 1;
      MissingStaysDistinct(es[..n], existing);
      assert es[n] !in es[..n];
    }
  }

  // ---------------------------------------------------------------------------
  // Completeness and minimality
  // ---------------------------------------------------------------------------

  /** Book rows that agree in everything but their clocks. */
  ghost predicate SameButClocks(a: map<Id, Book>, b: map<Id, Book>)
  {
    a.Keys == b.Keys && forall id :: id in a ==> b[id] == a[id].(clocks := b[id].clocks)
  }

  /** What a backfill does to the tables: at most it changes clocks of books. */
  ghost predicate OnlyClocksDiffer(t: Tables, u: Tables)
  {
    u == t.(books := u.books) && SameButClocks(t.books, u.books)
  }

  lemma ListedIgnoresClocks(t: Tables, u: Tables)
    requires OnlyClocksDiffer(t, u)
    ensures ListedBooks(u) == ListedBooks(t)
  {
    forall id | id in t.books ensures Listed(u.books[id]) <==> Listed(t.books[id]) {
      ReadableIgnoresClocks(t.books[id], u.books[id].clocks);
    }
  }

  lemma ReadableIgnoresClocks(b: Book, clocks: map<Key, Option<string>>)
    ensures Readable(b.(clocks := clocks)) <==> Readable(b)
  {
    assert forall k :: CellOf(b.(clocks := clocks), k) == CellOf(b, k);
    hide CellOf, ParseFormat, ParseStatus, IsUuidCell, IsTextCell, IsSmallCell;
  }

  /** An entry afterwards goes by the key of one before; for a book it is the row with the older clocks. */
  lemma SameKeyBefore(t: Tables, u: Tables, e: Entry) returns (before: Entry)
    requires OnlyClocksDiffer(t, u) && IsEntry(u, ListedBooks(u), e)
    ensures IsEntry(t, ListedBooks(t), before) && KeyOf(before) == KeyOf(e)
  {
    ListedIgnoresClocks(t, u);
    hide ListedBooks, NormalTagType, ReadableSession, ReadableProgress;
    before := if e.ABook? then ABook(e.id, t.books[e.id]) else e;
  }

  /** The log after a backfill of the given entries. */
  function Backfilled(log: Log, device: Id, es: seq<Entry>, tickets: nat -> Ticket): Log
    requires AllEmittable(es)
  {
    EmitAll(log, device, Missing(es, Existing(log)), tickets)
  }

  /** Afterwards exactly the subjects of the old log and of the library have a Create op, so a second
      backfill, whatever the first did to the clocks, has nothing to emit. */
  lemma BackfillIsComplete(t: Tables, es: seq<Entry>, log: Log, device: Id, tickets: nat -> Ticket, u: Tables,
                           again: seq<Entry>)
    requires Enumerates(es, t) && AllEmittable(es) && OnlyClocksDiffer(t, u) && Enumerates(again, u)
    ensures Existing(Backfilled(log, device, es, tickets)) == Existing(log) + Keys(es)
    ensures forall e :: IsEntry(t, ListedBooks(t), e) ==> KeyOf(e) in Existing(Backfilled(log, device, es, tickets))
    ensures Missing(again, Existing(Backfilled(log, device, es, tickets))) == []
  {
    hide KeyOf, IsEntry, EmitAll, Missing, Emittable, OnlyClocksDiffer, ListedBooks;
    var missing := Missing(es, Existing(log));
    EmittedSubjects(log, device, missing, tickets);
    MissingKeys(es, Existing(log));
    var covered := Existing(Backfilled(log, device, es, tickets));
    assert forall e :: e in es ==> KeyOf(e) in Keys(es);
    forall e | e in again ensures KeyOf(e) in covered {
      var before := SameKeyBefore(t, u, e);
      assert before in es;
    }
    NothingMissing(again, covered);
  }

  /** The ops appended to a log are about pairwise different subjects. */
  ghost predicate OnePerSubject(r: Log, start: nat)
  {
    forall i, j :: start <= i < j < |r| ==> SubjectOf(r[i].op) != SubjectOf(r[j].op)
  }

  /** Ops are added only for entries that had none, and exactly one for each, unless two entries are twin
      tags: the set of existing ops is loaded once, so both of them are emitted. */
  lemma BackfillIsMinimal(t: Tables, es: seq<Entry>, log: Log, device: Id, tickets: nat -> Ticket)
    requires Enumerates(es, t) && AllEmittable(es)
    ensures |Backfilled(log, device, es, tickets)| == |log| + |Missing(es, Existing(log))|
    ensures Backfilled(log, device, es, tickets)[..|log|] == log
    ensures forall i :: |log| <= i < |Backfilled(log, device, es, tickets)| ==>
      var row := Backfilled(log, device, es, tickets)[i];
      !row.pushed && SubjectOf(row.op).Some? && SubjectOf(row.op).value in Keys(es) - Existing(log)
    ensures OnePerSubject(Backfilled(log, device, es, tickets), |log|) <==> NoTwins(Missing(es, Existing(log)))
  {
    hide KeyOf, IsEntry, EmitAll, Missing, SubjectOf, Twins, LocalOp, DraftOf, Emittable;
    var missing, r := Missing(es, Existing(log)), Backfilled(log, device, es, tickets);
    forall i | |log| <= i < |r|
      ensures !r[i].pushed && SubjectOf(r[i].op) == Some(KeyOf(missing[i - |log|]))
    {
      EmittedRow(log, device, missing, tickets, i - |log|);
    }
    MissingStaysDistinct(es, Existing(log));
    forall i, j | 0 <= i < j < |missing|
      ensures SubjectOf(r[|log| + i].op) == SubjectOf(r[|log| + j].op) <==> Twins(missing[i], missing[j])
    {
      assert missing[i] in es && missing[j] in es;
      SharedKey(t, missing[i], missing[j]);
    }
    if NoTwins(missing) {
      forall i, j | |log| <= i < j < |r| ensures SubjectOf(r[i].op) != SubjectOf(r[j].op) {
        assert !Twins(missing[i - |log|], missing[j - |log|]);
        assert r[|log| + (i - |log|)] == r[i] && r[|log| + (j - |log|)] == r[j];
      }
    }
    if OnePerSubject(r, |log|) {
      forall i, j | 0 <= i < j < |missing| ensures !Twins(missing[i], missing[j]) {
        assert SubjectOf(r[|log| + i].op) != SubjectOf(r[|log| + j].op);
      }
    }
  }

  /** Twins exist: a content warning stored under its short name beside the long one. */
  lemma ShortNamesMakeTwins(book: Id, name: string)
    ensures Twins(ATag(book, name, "cw"), ATag(book, name, "content_warning"))
  {
    hide LowerCase;
    LowerStays("cw");
    LowerStays("content_warning");
  }

  lemma LowerStays(s: string)
    requires forall i :: 0 <= i < |s| ==> !('A' <= s[i] <= 'Z')
    ensures LowerCase(s) == s
  {
  }

  // ---------------------------------------------------------------------------
  // Order
  // ---------------------------------------------------------------------------

  function LastCounter(log: Log): nat
  {
    if LastStamp(log).Some? then LastStamp(log).value.counter else 0
  }

  ghost predicate WallsInRange(tickets: nat -> Ticket)
  {
    forall i: nat :: FourDigitMillis(tickets(i).wall / NANOS_PER_MILLI)
  }

  /** A local emission uses up at most one step of the log's counter. */
  lemma EmissionStep(log: Log, device: Id, d: Draft, wall: nat)
    requires StampedLog(log) && InRange(log, wall) && RoomAbove(log, wall) && ByteLength(DevicePrefix(device)) == 12
    ensures LastCounter(Emit(log, device, d, wall)) <= LastCounter(log) + 1
  {
    hide ToCanonical, FromStr, Less, FourDigitMillis, MergeAt, RoomAbove, DevicePrefix;
    var prefix := DevicePrefix(device);
    var n := NextHlc(log, prefix, wall);
    EmissionDominates(log, prefix, wall);
    CanonicalRoundTrip(n);
    var after := Emit(log, device, d, wall);
    assert after[..|log|] == log;
    if log == [] {
      assert MaxHlc(after) == Some(ToCanonical(n));
    } else {
      DominatesMax(ToCanonical(n), log);
      assert MaxHlc(after) == Some(ToCanonical(n));
      MaxHlcIsMax(log);
      var i :| 0 <= i < |log| && log[i].op.hlc == MaxHlc(log).value;
      assert IsStampText(log[i].op.hlc);
      SeededClock(LastStamp(log).value, prefix, wall);
    }
  }

  /** A log whose greatest counter leaves a four-digit step for every entry has room for them all, so
      each emitted op is above everything before it. */
  lemma {:induction false} EmissionsAscend(log: Log, device: Id, es: seq<Entry>, tickets: nat -> Ticket)
    requires StampedLog(log) && LocalsAscend(log) && ByteLength(DevicePrefix(device)) == 12 && AllEmittable(es)
    requires WallsInRange(tickets) && LastCounter(log) + |es| <= 9999
    ensures var r := EmitAll(log, device, es, tickets);
      StampedLog(r) && LocalsAscend(r) && LastCounter(r) <= LastCounter(log) + |es|
  {
    hide StampedLog, LocalsAscend, DevicePrefix, DraftOf, Emit, Emittable, FourDigitMillis;
    if es != [] {
      var n := |es| - 1;
      EmissionsAscend(log, device, es[..n], tickets);
      var before, d, wall := EmitAll(log, device, es[..n], tickets), DraftOf(es[n], tickets(n)), tickets(n).wall;
      assert InRange(before, wall) && RoomAbove(before, wall);
      EmissionStep(before, device, d, wall);
      StepKeepsOrder(before, device, Emitted(d, wall));
    }
  }

  lemma EmittedEntity(log: Log, device: Id, es: seq<Entry>, tickets: nat -> Ticket, i: nat)
    requires AllEmittable(es) && i < |es|
    ensures EmitAll(log, device, es, tickets)[|log| + i].op.entity == BookEntity <==> es[i].ABook?
    ensures !EmitAll(log, device, es, tickets)[|log| + i].pushed
  {
    hide ToCanonical, NextHlc, FieldsOf, Emittable, EmitAll, DevicePrefix;
    EmittedRow(log, device, es, tickets, i);
  }

  /** Each book Create of a backfill sorts below every session, progress and tag Create of it. */
  lemma BooksSortFirst(es: seq<Entry>, log: Log, device: Id, tickets: nat -> Ticket, i: nat, j: nat)
    requires BooksFirst(es) && AllEmittable(es)
    requires StampedLog(log) && LocalsAscend(log) && ByteLength(DevicePrefix(device)) == 12
    requires WallsInRange(tickets) && LastCounter(log) + |Missing(es, Existing(log))| <= 9999
    requires |log| <= i < |Backfilled(log, device, es, tickets)| && |log| <= j < |Backfilled(log, device, es, tickets)|
    requires Backfilled(log, device, es, tickets)[i].op.entity == BookEntity
    requires Backfilled(log, device, es, tickets)[j].op.entity != BookEntity
    ensures Less(Backfilled(log, device, es, tickets)[i].op.hlc, Backfilled(log, device, es, tickets)[j].op.hlc)
  {
    hide IsEntry, EmitAll, Missing, DevicePrefix, Existing, Less, Emittable, StampedLog;
    var missing := Missing(es, Existing(log));
    EmissionsAscend(log, device, missing, tickets);
    MissingKeepsOrder(es, Existing(log));
    EmittedEntity(log, device, missing, tickets, i - |log|);
    EmittedEntity(log, device, missing, tickets, j - |log|);
    assert i < j;
  }

  // ---------------------------------------------------------------------------
  // What a peer makes of the ops
  // ---------------------------------------------------------------------------

  lemma TextReadsBack(obj: Object, k: Key, c: Cell)
    requires k in obj && obj[k] == CellJson(c) && IsTextCell(c)
    ensures TextCell(TextField(obj, k)) == c && (c.Str? ==> TextField(obj, k) == Some(c.text))
  {
  }

  lemma NumberReadsBack(obj: Object, k: Key, c: Cell)
    requires k in obj && obj[k] == CellJson(c) && IsSmallCell(c)
    ensures IntCell(IntField(obj, k)) == c
  {
  }

  /** The columns that a Create op carries unchanged. */
  predicate IsPlainField(k: Key)
  {
    IsBookField(k) && !k.Format? && !k.Status? && !k.WorkId?
  }

  lemma BookFieldsHold(b: Book, k: Key)
    requires Readable(b) && IsPlainField(k)
    ensures k in BookFields(b) && BookFields(b)[k] == CellJson(CellOf(b, k))
    ensures if IsIntegerColumn(k) then IsSmallCell(CellOf(b, k)) else IsTextCell(CellOf(b, k))
  {
    hide CellJson, ParseFormat, ParseStatus, IsSmallCell;
    BookFieldsAreDistinct();
    PlainCells(b, k);
    hide CellOf;
  }

  lemma PlainCells(b: Book, k: Key)
    requires Readable(b) && IsPlainField(k)
    ensures if IsIntegerColumn(k) then IsSmallCell(CellOf(b, k)) else IsTextCell(CellOf(b, k))
  {
    hide CellOf, ParseFormat, ParseStatus, IsSmallCell;
  }

  lemma PlainFieldReadsBack(b: Book, k: Key)
    requires Readable(b) && IsPlainField(k)
    ensures NewCell(BookFields(b), k) == CellOf(b, k)
  {
    hide Readable, BookFields, CellJson, IsTextCell, IsSmallCell, IntCell, IntField, CellOf;
    BookFieldsHold(b, k);
    TitleIsText(b);
    if IsIntegerColumn(k) {
      NumberReadsBack(BookFields(b), k, CellOf(b, k));
    } else {
      TextReadsBack(BookFields(b), k, CellOf(b, k));
    }
  }

  /** The merge engine reads a backfilled book back from its op, without its work and with its status
      in canonical spelling. */
  lemma BookOpsDescribeRows(b: Book, k: Key)
    requires Readable(b) && IsBookField(k)
    ensures k in NewCells(BookFields(b))
    ensures IsPlainField(k) ==> NewCells(BookFields(b))[k] == CellOf(b, k)
    ensures k == WorkId ==> NewCells(BookFields(b))[k] == Nil
    ensures k == Status ==> NewCells(BookFields(b))[k] == Str(StatusText(ParseStatus(CellOf(b, Status).text).value))
    ensures k == Format ==> NewCells(BookFields(b))[k] == Str(ParseFormat(CellOf(b, Format).text).value)
  {
    hide Readable, BookFields, NewCell, CellOf, ParseFormat, ParseStatus;
    BookFieldsAreDistinct();
    OtherFieldsReadBack(b);
    if IsPlainField(k) {
      PlainFieldReadsBack(b, k);
    }
  }

  lemma OtherFieldsReadBack(b: Book)
    requires Readable(b)
    ensures NewCell(BookFields(b), WorkId) == Nil
    ensures NewCell(BookFields(b), Status) == Str(StatusText(ParseStatus(CellOf(b, Status).text).value))
    ensures NewCell(BookFields(b), Format) == Str(ParseFormat(CellOf(b, Format).text).value)
  {
    hide CellJson, ParseFormat, ParseStatus, CellOf, IsTextCell, IsSmallCell, IsUuidCell;
    hide Readable;
    var obj := BookFields(b);
    BookFieldsAreDistinct();
    assert Status in obj && Format in obj && WorkId !in obj;
    assert obj[Status] == FieldJson(b, Status) && obj[Format] == FieldJson(b, Format);
  }

  lemma TitleIsText(b: Book)
    requires Readable(b)
    ensures CellOf(b, Title).Str?
  {
  }

  /** Writing a time in UTC keeps the instant to the nanosecond, unless its year needs five digits. */
  lemma InUtcKeepsInstant(s: string)
    requires ReadableTime(s)
    ensures ParseInstant(InUtc(s)) ==
      if FourDigitMillis(ParseInstant(s).value / NANOS_PER_MILLI) then ParseInstant(s) else None
  {
    hide ParseInstant, FormatRfc3339, FourDigitMillis;
    Rfc3339ReadsBack(ParseInstant(s).value);
  }

  /** It reads sessions and progress entries back as they are, but for the spelling of the type and with
      their times in UTC. */
  lemma SessionOpsDescribeRows(s: Session, createdAt: string)
    requires ReadableSession(s)
    ensures SessionOf(SessionFields(s), createdAt) ==
      Some(s.(createdAt := createdAt, startedAt := InUtc(s.startedAt),
              finishedAt := if s.finishedAt.Some? then Some(InUtc(s.finishedAt.value)) else None))
  {
    hide InUtc, ReadableTime;
  }

  lemma ProgressOpsDescribeRows(p: Progress, createdAt: string)
    requires ReadableProgress(p)
    ensures ProgressOf(ProgressFields(p), createdAt) ==
      Some(p.(createdAt := createdAt, loggedAt := InUtc(p.loggedAt),
              progressType := ParseProgressType(p.progressType).value))
  {
    hide ParseProgressType, InUtc, ReadableTime;
  }
}
