/** What a peer ends up with when it merges the op that a backfill emits for a row. */
module BackfillArrivals {
  import opened Wrappers
  import opened Text
  import opened Statuses
  import opened Library
  import opened MergeRules
  import opened SyncLog
  import opened StoredRows
  import opened StoredBooks
  import opened Backfills

  /** The op emitted for a row. */
  function OpFor(log: Log, device: Id, e: Entry, ticket: Ticket): Op
    requires Emittable(e)
  {
    LocalOp(log, device, DraftOf(e, ticket), ticket.wall)
  }

  lemma OpParts(log: Log, device: Id, e: Entry, ticket: Ticket)
    requires Emittable(e)
    ensures var op := OpFor(log, device, e, ticket);
      && op.entity == EntityOf(e) && op.entityId == e.id && op.opType == Create && op.fields == Some(FieldsOf(e))
      && op.createdAt == ticket.createdAt && op.device == device
  {
    hide FieldsOf, Emittable;
  }

  lemma SessionInserted(t: Tables, op: Op, row: Session)
    requires op.fields.Some? && SessionOf(op.fields.value, op.createdAt) == Some(row) && IsStars(IntCell(row.rating))
    requires op.entityId !in t.sessions && row.bookId in t.books
    ensures SessionCreate(t, op).0 == t.(sessions := t.sessions[op.entityId := row])
  {
    hide SessionOf, IsStars;
  }

  /** A session as it arrives: its times in UTC, and the op's time as its creation time. */
  function ArrivedSession(s: Session, createdAt: string): Session
    requires ReadableSession(s)
  {
    Session(s.bookId, InUtc(s.startedAt), if s.finishedAt.Some? then Some(InUtc(s.finishedAt.value)) else None,
            s.startPage, s.endPage, s.rating, s.notes, createdAt)
  }

  lemma SessionReads(s: Session, createdAt: string)
    requires ReadableSession(s) && (s.rating.Some? ==> 0 <= s.rating.value <= 10)
    ensures var row := ArrivedSession(s, createdAt);
      && SessionOf(SessionFields(s), createdAt) == Some(row)
      && row.bookId == s.bookId && IsStars(IntCell(row.rating))
  {
    SessionOpsDescribeRows(s, createdAt);
    hide SessionOf, SessionFields, InUtc;
  }

  /** So does a session on a peer that knows the book and not the session. */
  lemma SessionArrives(log: Log, device: Id, id: Id, s: Session, ticket: Ticket, peer: Tables, newId: Id)
    requires ReadableSession(s) && (s.rating.Some? ==> 0 <= s.rating.value <= 10)
    requires id !in peer.sessions && s.bookId in peer.books
    ensures Step(peer, OpFor(log, device, ASession(id, s), ticket), newId) ==
      peer.(sessions := peer.sessions[id := ArrivedSession(s, ticket.createdAt)])
  {
    var op := OpFor(log, device, ASession(id, s), ticket);
    OpParts(log, device, ASession(id, s), ticket);
    SessionReads(s, ticket.createdAt);
    SessionFrame(peer, op, newId);
    SessionInserted(peer, op, ArrivedSession(s, ticket.createdAt));
    hide Step, SessionOf, SessionCreate, SessionFields, ReadableSession, ArrivedSession, OpFor, IsStars, IntCell;
  }

  /** A progress entry arrives with its time in UTC and its type in canonical spelling, unless the peer has a value as
      high for the book and type. */
  lemma ProgressArrives(log: Log, device: Id, id: Id, p: Progress, ticket: Ticket, peer: Tables, newId: Id)
    requires ReadableProgress(p) && id !in peer.progress && p.bookId in peer.books
    requires p.sessionId.Some? ==> p.sessionId.value in peer.sessions
    requires !Reached(peer.progress, p.bookId, ParseProgressType(p.progressType).value, p.value)
    ensures var op := OpFor(log, device, AProgress(id, p), ticket);
      Step(peer, op, newId) == peer.(progress := peer.progress[id :=
        Progress(p.bookId, p.sessionId, ParseProgressType(p.progressType).value, p.value, p.note, InUtc(p.loggedAt),
                 ticket.createdAt)])
  {
    OpParts(log, device, AProgress(id, p), ticket);
    ProgressOpsDescribeRows(p, ticket.createdAt);
    ProgressFrame(peer, OpFor(log, device, AProgress(id, p), ticket), newId);
    hide Step, ProgressOf, ProgressFields, InUtc, OpFor, Reached, ParseProgressType;
  }

  /** A tag arrives on the book under its name and its type in canonical spelling. */
  lemma TagArrives(log: Log, device: Id, book: Id, name: string, tagType: string, ticket: Ticket, peer: Tables,
                   newId: Id)
    requires book in peer.books && !IsTagId(peer.tags, newId)
    ensures var u := Step(peer, OpFor(log, device, ATag(book, name, tagType), ticket), newId);
      var k := TagKey(LowerCase(name), NormalTagType(tagType));
      && k in u.tags && (book, u.tags[k].id) in u.bookTags
      && u.tags[k] == (if k in peer.tags then peer.tags[k] else Tag(newId, name))
      && u == peer.(tags := peer.tags[k := u.tags[k]], bookTags := peer.bookTags + {(book, u.tags[k].id)})
  {
    var op := OpFor(log, device, ATag(book, name, tagType), ticket);
    OpParts(log, device, ATag(book, name, tagType), ticket);
    TagNamed(name, tagType);
    hide TagFields, IsTagNamed, IsText;
    TagStored(peer, op, newId, TagKey(LowerCase(name), NormalTagType(tagType)));
    hide Step, LowerCase, NormalTagType, IsTagId, OpFor;
  }

  lemma TagNamed(name: string, tagType: string)
    ensures IsText(TagFields(name, tagType), TagName) && TagFields(name, tagType)[TagName].text == name
    ensures IsTagNamed(TagKey(LowerCase(name), NormalTagType(tagType)), TagFields(name, tagType))
  {
    hide LowerCase, NormalTagType;
  }

  /** A book arrives with its columns, without its work, and with status and format in canonical spelling. */
  lemma BookArrives(log: Log, device: Id, id: Id, b: Book, ticket: Ticket, peer: Tables, newId: Id)
    requires Readable(b) && IsStars(CellOf(b, Rating)) && id !in peer.books
    ensures var op := OpFor(log, device, ABook(id, b), ticket);
      && id in Step(peer, op, newId).books
      && Step(peer, op, newId) == peer.(books := peer.books[id := Step(peer, op, newId).books[id]])
      && ArrivedBook(b, Step(peer, op, newId).books[id])
  {
    var op := OpFor(log, device, ABook(id, b), ticket);
    OpParts(log, device, ABook(id, b), ticket);
    PlainFieldReadsBack(b, Rating);
    BookFrame(peer, op, newId);
    BookMerge(peer, op, newId);
    CreatedBooks(peer, op);
    NewBookArrives(b, op.hlc);
    hide Readable, BookFields, NewBook, NewCell, IsStars, CellOf, ArrivedBook, Merge, BookCreate, BookUpdate, OpFor;
  }

  /** The row of a peer, beside the row it was emitted for. */
  ghost predicate ArrivedBook(b: Book, r: Book)
    requires Readable(b)
  {
    && (forall k :: IsPlainField(k) ==> CellOf(r, k) == CellOf(b, k))
    && CellOf(r, WorkId) == Nil && r.tombstone == None
    && CellOf(r, Status) == Str(StatusText(ParseStatus(CellOf(b, Status).text).value))
    && CellOf(r, Format) == Str(ParseFormat(CellOf(b, Format).text).value)
  }

  lemma NewBookArrives(b: Book, hlc: string)
    requires Readable(b)
    ensures ArrivedBook(b, NewBook(BookFields(b), hlc))
  {
    var r := NewBook(BookFields(b), hlc);
    forall k | IsBookField(k) ensures CellOf(r, k) == NewCells(BookFields(b))[k] {
      BookFieldsAreDistinct();
    }
    forall k | IsPlainField(k) ensures CellOf(r, k) == CellOf(b, k) {
      BookOpsDescribeRows(b, k);
    }
    BookOpsDescribeRows(b, WorkId);
    BookOpsDescribeRows(b, Status);
    BookOpsDescribeRows(b, Format);
    hide Readable, BookFields, NewCells, CellOf;
  }

  // ---------------------------------------------------------------------------
  // Which rows are read
  // ---------------------------------------------------------------------------

  /** A number of the object fits 32 bits, if it is one at all. */
  predicate IsSmall(obj: Object, k: Key)
  {
    IsNumber(obj, k) ==> -0x8000_0000 <= obj[k].number <= 0x7FFF_FFFF
  }

  /** The formats, entry types and tag types, in small or capital letters. */
  lemma KindsAreNamed(s: string)
    ensures ParseFormat(s) ==
      if LowerCase(s) in ["physical", "ebook", "audiobook"] then Some(LowerCase(s)) else None
    ensures ParseProgressType(s) ==
      if LowerCase(s) in ["page", "percent", "chapter", "duration"] then Some(LowerCase(s)) else None
    ensures NormalTagType(s) ==
      if LowerCase(s) in ["mood", "pace"] then LowerCase(s)
      else if LowerCase(s) in ["content_warning", "content-warning", "cw"] then "content_warning" else "general"
  {
    hide LowerCase;
  }

  /** A book just created can be read, and so backfilled, exactly when its format and status are known, its numbers fit
      32 bits, and its work, if there is one, is a UUID. */
  lemma CreatedBookIsReadable(obj: Object, hlc: string)
    ensures Readable(NewBook(obj, hlc)) <==>
      && (IsText(obj, Format) ==> LowerCase(obj[Format].text) in ["physical", "ebook", "audiobook"])
      && (IsText(obj, Status) ==> ParseStatus(obj[Status].text).Some?)
      && (IsText(obj, WorkId) ==> IsUuid(obj[WorkId].text))
      && IsSmall(obj, PageCount) && IsSmall(obj, DurationMinutes) && IsSmall(obj, Rating)
  {
    var b := NewBook(obj, hlc);
    NewBookHolds(obj, hlc);
    FormatIsKnown(b, obj);
    StatusIsKnown(b, obj);
    TextsAreRead(b, obj);
    NumbersAreRead(b, obj);
    hide NewBook, CellOf, ParseFormat, ParseStatus, IsUuid, LowerCase, ClocksHold, IsTextCell, IsSmallCell, IsUuidCell;
    hide IsSmall, DefaultsHold, TextsHold, NumbersHold, IsText;
  }

  lemma FormatIsKnown(b: Book, obj: Object)
    requires DefaultsHold(b, obj)
    ensures CellOf(b, Format).Str?
    ensures ParseFormat(CellOf(b, Format).text).Some? <==>
      (IsText(obj, Format) ==> LowerCase(obj[Format].text) in ["physical", "ebook", "audiobook"])
  {
    DefaultsAreKnown();
    if IsText(obj, Format) {
      KindsAreNamed(obj[Format].text);
    }
    hide CellOf, ParseFormat, LowerCase;
  }

  lemma StatusIsKnown(b: Book, obj: Object)
    requires DefaultsHold(b, obj)
    ensures CellOf(b, Status).Str? && CellOf(b, Title).Str?
    ensures ParseStatus(CellOf(b, Status).text).Some? <==>
      (IsText(obj, Status) ==> ParseStatus(obj[Status].text).Some?)
  {
    DefaultsAreKnown();
    hide CellOf, ParseStatus;
  }

  lemma TextsAreRead(b: Book, obj: Object)
    requires TextsHold(b, obj)
    ensures IsTextCell(CellOf(b, Subtitle)) && IsTextCell(CellOf(b, Description)) && IsTextCell(CellOf(b, PubDate))
    ensures IsTextCell(CellOf(b, Language)) && IsTextCell(CellOf(b, CoverHash))
    ensures IsUuidCell(CellOf(b, WorkId)) <==> (IsText(obj, WorkId) ==> IsUuid(obj[WorkId].text))
  {
    hide CellOf, IsUuid;
  }

  lemma NumbersAreRead(b: Book, obj: Object)
    requires NumbersHold(b, obj)
    ensures IsSmallCell(CellOf(b, PageCount)) <==> IsSmall(obj, PageCount)
    ensures IsSmallCell(CellOf(b, DurationMinutes)) <==> IsSmall(obj, DurationMinutes)
    ensures IsSmallCell(CellOf(b, Rating)) <==> IsSmall(obj, Rating)
  {
    hide CellOf;
  }

  lemma DefaultsAreKnown()
    ensures ParseFormat("physical").Some? && ParseStatus("want-to-read").Some?
  {
    assert StatusText(WantToRead) == "want-to-read";
    hide ParseStatus, ParseFormat, LowerCase, StatusText;
    StatusTextParses(WantToRead);
    LowerStays("physical");
    KindsAreNamed("physical");
  }

  /** Hexadecimal digits, in small or capital letters. */
  predicate AllHex(s: string)
  {
    forall i :: 0 <= i < |s| ==> '0' <= s[i] <= '9' || 'a' <= s[i] <= 'f' || 'A' <= s[i] <= 'F'
  }

  /** The four spellings of a UUID. */
  lemma UuidSpellings(a: string, b: string, c: string, d: string, e: string)
    requires |a| == 8 && |b| == 4 && |c| == 4 && |d| == 4 && |e| == 12
    requires AllHex(a) && AllHex(b) && AllHex(c) && AllHex(d) && AllHex(e)
    ensures var u := a + "-" + b + "-" + c + "-" + d + "-" + e;
      IsUuid(u) && IsUuid("{" + u + "}") && IsUuid("urn:uuid:" + u)
    ensures IsUuid(a + b + c + d + e)
  {
    var u := a + "-" + b + "-" + c + "-" + d + "-" + e;
    Hyphenated(u, a, b, c, d, e);
    assert ("{" + u + "}")[1..37] == u && ("urn:uuid:" + u)[9..] == u;
    var v := a + b + c + d + e;
    forall i | 0 <= i < 32 ensures IsHex(v[i]) {
      assert v[i] == if i < 8 then a[i] else if i < 12 then b[i - 8] else if i < 16 then c[i - 12]
                     else if i < 20 then d[i - 16] else e[i - 20];
    }
    hide IsHyphenated;
  }

  lemma Hyphenated(u: string, a: string, b: string, c: string, d: string, e: string)
    requires |a| == 8 && |b| == 4 && |c| == 4 && |d| == 4 && |e| == 12
    requires AllHex(a) && AllHex(b) && AllHex(c) && AllHex(d) && AllHex(e)
    requires u == a + "-" + b + "-" + c + "-" + d + "-" + e
    ensures IsHyphenated(u)
  {
    forall i | 0 <= i < 36
      ensures if i == 8 || i == 13 || i == 18 || i == 23 then u[i] == '-' else IsHex(u[i])
    {
      assert u[i] == if i < 8 then a[i] else if i == 8 then '-' else if i < 13 then b[i - 9] else if i == 13 then '-'
                     else if i < 18 then c[i - 14] else if i == 18 then '-' else if i < 23 then d[i - 19]
                     else if i == 23 then '-' else e[i - 24];
    }
  }

  /** A text of another length, or with another character than these, is none. */
  lemma OtherTextsAreNoUuid(s: string)
    requires IsUuid(s)
    ensures |s| == 32 || |s| == 36 || |s| == 38 || |s| == 45
    ensures |s| == 32 ==> AllHex(s)
    ensures |s| == 36 ==> s[8] == '-' && s[13] == '-' && s[18] == '-' && s[23] == '-'
    ensures |s| == 36 ==> AllHex(s[..8]) && AllHex(s[9..13]) && AllHex(s[14..18])
    ensures |s| == 36 ==> AllHex(s[19..23]) && AllHex(s[24..])
  {
  }
}
